/** Entries scanned from a node's socket table. The lines `ss -anplt` and
    `ss -anplu` print on the node are filtered, each kept line is parsed into an
    entry (port, owning process, or the container that owns the process), and
    the entries are stamped with protocol, node roles and the required flag.
    Commands run on the node through `exec`, a parameter standing for the
    debug pod; the JSON that crictl prints is read through `decode`, which
    gives the container names it lists. */
module Ss {
  import opened Wrappers
  import opened Text
  import opened Seqs
  import opened Cluster
  import opened InternalTypes
  import Nodes

  datatype ScanError =
    | ExecFailed(cmd: string, reason: string)
    | PidNotFound
    | ServiceNameNotFound(line: string)
    | ContainerIdNotFound(pid: string)
    | DecodeFailed(output: string)
    | ContainerCount(count: nat)
    | ContainerNotIdentified(service: string, cause: ScanError)
      /** Go indexes the fourth whitespace field without a length check and
          panics; the model turns that panic into this error. */
    | MissingPortField(line: string)

  const TcpCommand := "ss -anplt"
  const UdpCommand := "ss -anplu"
  const LocalAddrPortFieldIdx := 3

  const OptionalProcesses: set<string> := {"rpcbind", "sshd", "rpc.statd"}
  const HostServices: set<string> := {"rpcbind", "sshd", "rpc.statd", "crio", "systemd", "kubelet"}

  // ---------------------------------------------------------------------------
  // Line filters
  // ---------------------------------------------------------------------------

  /** tcpSSFilterFn: drop loopback lines and lines not in the LISTEN state. */
  predicate TcpFilterOut(s: string) {
    Contains(s, "127.0.0") || !Contains(s, "LISTEN")
  }

  /** udpSSFilterFn: drop loopback lines and lines without ESTAB. */
  predicate UdpFilterOut(s: string) {
    Contains(s, "127.0.0") || !Contains(s, "ESTAB")
  }

  /** splitByLines: the pieces between newlines; joining them back with "\n"
      gives the output again. */
  function SplitByLines(s: string): (lines: seq<string>)
    ensures Join(lines, "\n") == s
    ensures forall k | 0 <= k < |lines| :: '\n' !in lines[k]
  {
    JoinSplit(s, '\n');
    SplitPiecesFree(s, '\n');
    Split(s, '\n')
  }

  /** filterStrings: the lines `filterOut` does not reject, in order. */
  method FilterStrings(filterOut: string -> bool, strs: seq<string>) returns (res: seq<string>)
    ensures res == Filter(Not(filterOut), strs)
  {
    res := [];
    for i := 0 to |strs|
      invariant res == Filter(Not(filterOut), strs[..i])
    {
      assert strs[..i + 1] == strs[..i] + [strs[i]];
      FilterSnoc(Not(filterOut), strs[..i], strs[i]);
      if filterOut(strs[i]) {
        continue;
      }
      res := res + [strs[i]];
    }
    assert strs[..|strs|] == strs;
  }

  /** The TCP lines kept are exactly the non-loopback LISTEN lines. */
  lemma TcpLinesKept(lines: seq<string>, l: string)
    ensures l in Filter(Not(TcpFilterOut), lines)
            <==> l in lines && Contains(l, "LISTEN") && !Contains(l, "127.0.0")
  {
    FilterMembers(Not(TcpFilterOut), lines, l);
  }

  /** The UDP lines kept are exactly the non-loopback ESTAB lines. */
  lemma UdpLinesKept(lines: seq<string>, l: string)
    ensures l in Filter(Not(UdpFilterOut), lines)
            <==> l in lines && Contains(l, "ESTAB") && !Contains(l, "127.0.0")
  {
    FilterMembers(Not(UdpFilterOut), lines, l);
  }

  /** The empty piece after the output's final newline never reaches parsing. */
  lemma EmptyLineDropped()
    ensures TcpFilterOut("") && UdpFilterOut("")
  {
    assert !Contains("", "LISTEN") && !Contains("", "ESTAB");
  }

  // ---------------------------------------------------------------------------
  // Leftmost matches of the three patterns
  // ---------------------------------------------------------------------------

  /** The length of the longest prefix of `t` whose characters satisfy `p`. */
  function PrefixWhile(t: string, p: char -> bool): (n: nat)
    ensures n <= |t|
    ensures forall k | 0 <= k < n :: p(t[k])
    ensures n < |t| ==> !p(t[n])
  {
    if t == [] || !p(t[0]) then 0 else 1 + PrefixWhile(t[1..], p)
  }

  /** A run of `m` characters satisfying `p`, followed by the end or by one
      that does not, is the prefix PrefixWhile measures. */
  lemma PrefixWhileExact(t: string, p: char -> bool, m: nat)
    requires m <= |t| && (forall k | 0 <= k < m :: p(t[k])) && (m < |t| ==> !p(t[m]))
    ensures PrefixWhile(t, p) == m
  {
  }

  predicate IsHex(c: char) {
    IsDigit(c) || 'a' <= c <= 'f' || 'A' <= c <= 'F'
  }

  /** The capture of `pid=(\d+)` when a match starts at `i`. */
  function PidAt(s: string, i: int): Option<string> {
    if OccursAt(s, "pid=", i) then
      var n := PrefixWhile(s[i + 4..], IsDigit);
      if n > 0 then Some(s[i + 4..i + 4 + n]) else None
    else None
  }

  /** A match at `i` is "pid=" followed by a digit, and captures the whole
      digit run. */
  lemma PidAtSpec(s: string, i: int)
    ensures PidAt(s, i).Some? <==> OccursAt(s, "pid=", i) && i + 4 < |s| && IsDigit(s[i + 4])
    ensures PidAt(s, i).Some? ==>
              var v := PidAt(s, i).value;
              |v| > 0 && AllDigits(v) && OccursAt(s, "pid=" + v, i)
              && (i + 4 + |v| == |s| || !IsDigit(s[i + 4 + |v|]))
  {
    if PidAt(s, i).Some? {
      var v := PidAt(s, i).value;
      assert s[i..i + 4 + |v|] == s[i..i + 4] + v;
    }
  }

  const UsersPrefix := "users:((\""

  /** The capture of `users:\(\("([^"]+)"` when a match starts at `i`. */
  function ServiceNameAt(s: string, i: int): Option<string> {
    if OccursAt(s, UsersPrefix, i) then
      var start := i + |UsersPrefix|;
      var n := PrefixWhile(s[start..], c => c != '"');
      if n > 0 && start + n < |s| then Some(s[start..start + n]) else None
    else None
  }

  /** A match at `i` captures the non-empty quote-free text between
      `users:(("` and the next quote; there is one exactly when a non-quote
      follows the prefix and a quote comes later. */
  lemma ServiceNameAtSpec(s: string, i: int)
    ensures ServiceNameAt(s, i).Some? ==>
              var v := ServiceNameAt(s, i).value;
              |v| > 0 && '"' !in v && OccursAt(s, UsersPrefix + v + "\"", i)
    ensures ServiceNameAt(s, i).Some? <==>
              OccursAt(s, UsersPrefix, i) && i + |UsersPrefix| < |s| && s[i + |UsersPrefix|] != '"'
              && '"' in s[i + |UsersPrefix|..]
  {
    if OccursAt(s, UsersPrefix, i) {
      var start := i + |UsersPrefix|;
      var t := s[start..];
      var n := PrefixWhile(t, c => c != '"');
      if n > 0 && start + n < |s| {
        var v := s[start..start + n];
        assert ServiceNameAt(s, i) == Some(v);
        assert forall k | 0 <= k < |v| :: v[k] == t[k];
        assert t[n] == '"' && s[start] == t[0];
        assert s[i..start + n + 1] == s[i..start] + v + "\"";
      } else if n == 0 {
        assert start < |s| ==> s[start] == t[0];
      } else {
        assert forall k | 0 <= k < |t| :: t[k] != '"';
      }
    }
  }

  /** The capture of `crio-([0-9a-fA-F]+)\.scope` when a match starts at `i`.
      The hex run cannot stop early: the character after a shorter run is a
      hex digit, not the '.' of ".scope". */
  function ContainerIdAt(s: string, i: int): Option<string> {
    if OccursAt(s, "crio-", i) then
      var n := PrefixWhile(s[i + 5..], IsHex);
      if n > 0 && OccursAt(s, ".scope", i + 5 + n) then Some(s[i + 5..i + 5 + n]) else None
    else None
  }

  /** A non-empty run of hex digits. */
  predicate HexRun(v: string) {
    |v| > 0 && forall k | 0 <= k < |v| :: IsHex(v[k])
  }

  /** A match at `i` captures `v` exactly when the text at `i` is "crio-",
      the hex run `v`, then ".scope". */
  lemma ContainerIdAtSpec(s: string, i: int, v: string)
    ensures ContainerIdAt(s, i) == Some(v) <==> HexRun(v) && OccursAt(s, "crio-" + v + ".scope", i)
  {
    if ContainerIdAt(s, i) == Some(v) {
      ContainerIdAtMatched(s, i, v);
    }
    if HexRun(v) && OccursAt(s, "crio-" + v + ".scope", i) {
      ContainerIdAtIntro(s, i, v);
    }
  }

  lemma ContainerIdAtMatched(s: string, i: int, v: string)
    requires ContainerIdAt(s, i) == Some(v)
    ensures HexRun(v) && OccursAt(s, "crio-" + v + ".scope", i)
  {
    assert s[i..i + 5 + |v| + 6] == s[i..i + 5] + v + s[i + 5 + |v|..i + 5 + |v| + 6];
  }

  lemma ContainerIdAtIntro(s: string, i: int, v: string)
    requires HexRun(v) && OccursAt(s, "crio-" + v + ".scope", i)
    ensures ContainerIdAt(s, i) == Some(v)
  {
    CrioParts(s, i, v);
    var t := s[i + 5..];
    assert forall k | 0 <= k < |v| :: t[k] == s[i + 5..i + 5 + |v|][k];
    assert t[|v|] == s[i + 5 + |v|..i + 5 + |v| + 6][0];
    PrefixWhileExact(t, IsHex, |v|);
  }

  /** The three pieces of a "crio-" scope at `i`. */
  lemma CrioParts(s: string, i: int, v: string)
    requires OccursAt(s, "crio-" + v + ".scope", i)
    ensures s[i..i + 5] == "crio-" && s[i + 5..i + 5 + |v|] == v && s[i + 5 + |v|..i + 5 + |v| + 6] == ".scope"
  {
    var w := "crio-" + v + ".scope";
    var x := s[i..i + |w|];
    assert x == w;
    assert s[i..i + 5] == x[..5] == w[..5];
    assert s[i + 5..i + 5 + |v|] == x[5..5 + |v|] == w[5..5 + |v|];
    assert s[i + 5 + |v|..i + 5 + |v| + 6] == x[5 + |v|..] == w[5 + |v|..];
  }

  /** The three patterns the scanner searches a line or a cgroup file for. */
  datatype Pattern = PidPattern | ServiceNamePattern | ContainerIdPattern

  /** The capture of `p` when a match starts at position `i` of `s`. */
  function MatchAt(p: Pattern, s: string, i: int): Option<string> {
    match p
    case PidPattern => PidAt(s, i)
    case ServiceNamePattern => ServiceNameAt(s, i)
    case ContainerIdPattern => ContainerIdAt(s, i)
  }

  /** The first position from `i` to `end` where `at` reports a match. */
  function Leftmost(at: int -> Option<string>, i: int, end: int): Option<string>
    decreases end - i
  {
    if i > end then None
    else if at(i).Some? then at(i)
    else Leftmost(at, i + 1, end)
  }

  lemma {:induction false} LeftmostSpec(at: int -> Option<string>, i: int, end: int)
    ensures Leftmost(at, i, end).Some? ==>
              exists j | i <= j <= end :: at(j) == Leftmost(at, i, end) && forall k | i <= k < j :: at(k).None?
    ensures Leftmost(at, i, end).None? ==> forall j | i <= j <= end :: at(j).None?
    decreases end - i
  {
    if i <= end && at(i).None? {
      LeftmostSpec(at, i + 1, end);
    }
  }

  function Matcher(p: Pattern, s: string): (at: int -> Option<string>)
    ensures forall i :: at(i) == MatchAt(p, s, i)
  {
    i => MatchAt(p, s, i)
  }

  /** FindStringSubmatch: the capture of the leftmost match of `p` in `s`. */
  function Find(p: Pattern, s: string): Option<string> {
    Leftmost(Matcher(p, s), 0, |s|)
  }

  /** Find reports the match at the first position where the pattern
      matches, and nothing exactly when no position matches. */
  lemma FindSpec(p: Pattern, s: string)
    ensures Find(p, s).Some? ==> exists i | 0 <= i <= |s| :: MatchAt(p, s, i) == Find(p, s)
                                   && forall k | 0 <= k < i :: MatchAt(p, s, k).None?
    ensures Find(p, s).None? <==> forall i | 0 <= i <= |s| :: MatchAt(p, s, i).None?
  {
    var at := Matcher(p, s);
    LeftmostSpec(at, 0, |s|);
    forall i | 0 <= i <= |s| ensures at(i) == MatchAt(p, s, i) {}
  }

  /** extractPID */
  function ExtractPid(line: string): Result<string, ScanError> {
    match Find(PidPattern, line)
    case Some(pid) => Ok(pid)
    case None => Err(PidNotFound)
  }

  /** The pid is found exactly when "pid=" is followed by a digit somewhere in
      the line; it is then the whole digit run after the leftmost such
      "pid=". */
  lemma ExtractPidSpec(line: string)
    ensures ExtractPid(line).Ok? <==>
              exists i | 0 <= i < |line| :: OccursAt(line, "pid=", i) && i + 4 < |line| && IsDigit(line[i + 4])
    ensures ExtractPid(line).Ok? ==>
              var v := ExtractPid(line).value;
              |v| > 0 && AllDigits(v)
              && exists i | 0 <= i < |line| :: OccursAt(line, "pid=" + v, i)
                   && forall k | 0 <= k < i :: PidAt(line, k).None?
  {
    FindSpec(PidPattern, line);
    if ExtractPid(line).Ok? {
      var i :| 0 <= i <= |line| && MatchAt(PidPattern, line, i) == Find(PidPattern, line)
               && forall k | 0 <= k < i :: MatchAt(PidPattern, line, k).None?;
      PidAtSpec(line, i);
      assert forall k | 0 <= k < i :: PidAt(line, k).None? by {
        forall k | 0 <= k < i ensures PidAt(line, k).None? {
          assert MatchAt(PidPattern, line, k).None?;
        }
      }
    } else {
      forall i | 0 <= i < |line| ensures !(OccursAt(line, "pid=", i) && i + 4 < |line| && IsDigit(line[i + 4])) {
        assert MatchAt(PidPattern, line, i).None?;
        PidAtSpec(line, i);
      }
    }
  }

  /** extractServiceName */
  function ExtractServiceName(line: string): Result<string, ScanError> {
    match Find(ServiceNamePattern, line)
    case Some(name) => Ok(name)
    case None => Err(ServiceNameNotFound(line))
  }

  /** A found service name is the non-empty quote-free text of the leftmost
      `users:(("` group. */
  lemma ExtractServiceNameSpec(line: string)
    ensures ExtractServiceName(line).Ok? ==>
              var v := ExtractServiceName(line).value;
              |v| > 0 && '"' !in v
              && exists i | 0 <= i < |line| :: OccursAt(line, UsersPrefix + v + "\"", i)
                   && forall k | 0 <= k < i :: ServiceNameAt(line, k).None?
    ensures ExtractServiceName(line).Err? ==>
              forall i | 0 <= i <= |line| :: ServiceNameAt(line, i).None?
  {
    FindSpec(ServiceNamePattern, line);
    if ExtractServiceName(line).Ok? {
      var i :| 0 <= i <= |line| && MatchAt(ServiceNamePattern, line, i) == Find(ServiceNamePattern, line)
               && forall k | 0 <= k < i :: MatchAt(ServiceNamePattern, line, k).None?;
      ServiceNameAtSpec(line, i);
      assert forall k | 0 <= k < i :: ServiceNameAt(line, k).None? by {
        forall k | 0 <= k < i ensures ServiceNameAt(line, k).None? {
          assert MatchAt(ServiceNamePattern, line, k).None?;
        }
      }
    } else {
      forall i | 0 <= i <= |line| ensures ServiceNameAt(line, i).None? {
        assert MatchAt(ServiceNamePattern, line, i).None?;
      }
    }
  }

  // ---------------------------------------------------------------------------
  // Container attribution through the debug pod
  // ---------------------------------------------------------------------------

  function CgroupCommand(pid: string): string {
    "cat /proc/" + pid + "/cgroup"
  }

  function CrictlCommand(containerId: string): string {
    "crictl ps -o json --id " + containerId
  }

  /** extractContainerID: the leftmost crio scope id in the process's cgroup
      file. */
  function ExtractContainerId(exec: string -> Result<string, string>, pid: string): Result<string, ScanError> {
    match exec(CgroupCommand(pid))
    case Err(e) => Err(ExecFailed(CgroupCommand(pid), e))
    case Ok(out) =>
      match Find(ContainerIdPattern, out)
      case Some(id) => Ok(id)
      case None => Err(ContainerIdNotFound(pid))
  }

  /** An exec failure is returned as is. Otherwise an id is found exactly
      when the cgroup output holds "crio-", a hex run and ".scope"; it is the
      run of the leftmost such match, and a miss is ContainerIdNotFound. */
  lemma ExtractContainerIdSpec(exec: string -> Result<string, string>, pid: string)
    ensures exec(CgroupCommand(pid)).Err? ==>
              ExtractContainerId(exec, pid) == Err(ExecFailed(CgroupCommand(pid), exec(CgroupCommand(pid)).error))
    ensures exec(CgroupCommand(pid)).Ok? ==>
              var out := exec(CgroupCommand(pid)).value;
              (ExtractContainerId(exec, pid).Ok? <==>
                 exists i, v | 0 <= i < |out| && HexRun(v) :: OccursAt(out, "crio-" + v + ".scope", i))
              && (ExtractContainerId(exec, pid).Err? ==> ExtractContainerId(exec, pid) == Err(ContainerIdNotFound(pid)))
    ensures ExtractContainerId(exec, pid).Ok? ==>
              var out, v := exec(CgroupCommand(pid)).value, ExtractContainerId(exec, pid).value;
              exec(CgroupCommand(pid)).Ok? && HexRun(v)
              && exists i | 0 <= i < |out| :: OccursAt(out, "crio-" + v + ".scope", i)
                   && forall k | 0 <= k < i :: ContainerIdAt(out, k).None?
  {
    if exec(CgroupCommand(pid)).Ok? {
      var out := exec(CgroupCommand(pid)).value;
      FindSpec(ContainerIdPattern, out);
      if ExtractContainerId(exec, pid).Ok? {
        var v := ExtractContainerId(exec, pid).value;
        var i :| 0 <= i <= |out| && MatchAt(ContainerIdPattern, out, i) == Find(ContainerIdPattern, out)
                 && forall k | 0 <= k < i :: MatchAt(ContainerIdPattern, out, k).None?;
        ContainerIdAtSpec(out, i, v);
        assert forall k | 0 <= k < i :: ContainerIdAt(out, k).None? by {
          forall k | 0 <= k < i ensures ContainerIdAt(out, k).None? {
            assert MatchAt(ContainerIdPattern, out, k).None?;
          }
        }
      } else {
        forall i, v | 0 <= i < |out| && HexRun(v) ensures !OccursAt(out, "crio-" + v + ".scope", i) {
          assert MatchAt(ContainerIdPattern, out, i).None?;
          ContainerIdAtSpec(out, i, v);
        }
      }
    }
  }

  /** extractContainerInfo: the container name, when crictl lists exactly one
      container for the id. */
  function ExtractContainerInfo(exec: string -> Result<string, string>, decode: string -> Option<seq<string>>,
                                containerId: string): (r: Result<string, ScanError>)
    ensures r.Ok? <==> exec(CrictlCommand(containerId)).Ok?
                       && decode(exec(CrictlCommand(containerId)).value).Some?
                       && |decode(exec(CrictlCommand(containerId)).value).value| == 1
    ensures r.Ok? ==> decode(exec(CrictlCommand(containerId)).value) == Some([r.value])
  {
    match exec(CrictlCommand(containerId))
    case Err(e) => Err(ExecFailed(CrictlCommand(containerId), e))
    case Ok(out) =>
      match decode(out)
      case None => Err(DecodeFailed(out))
      case Some(containers) =>
        if |containers| != 1 then Err(ContainerCount(|containers|))
        else
          assert containers == [containers[0]];
          Ok(containers[0])
  }

  /** identifyContainerForPort */
  function IdentifyContainerForPort(exec: string -> Result<string, string>, decode: string -> Option<seq<string>>,
                                    line: string): Result<string, ScanError>
  {
    var pid :- ExtractPid(line);
    var containerId :- ExtractContainerId(exec, pid);
    ExtractContainerInfo(exec, decode, containerId)
  }

  // ---------------------------------------------------------------------------
  // One line, one entry
  // ---------------------------------------------------------------------------

  /** parseComDetail */
  function ParseComDetail(exec: string -> Result<string, string>, decode: string -> Option<seq<string>>,
                          line: string): Result<ComDetails, ScanError>
  {
    var serviceName :- ExtractServiceName(line);
    var name :-
      if serviceName in HostServices then Ok(serviceName)
      else match IdentifyContainerForPort(exec, decode, line)
           case Ok(container) => Ok(container)
           case Err(e) => Err(ContainerNotIdentified(serviceName, e));
    var fields := Fields(line);
    if |fields| <= LocalAddrPortFieldIdx then Err(MissingPortField(line))
    else
      var port := AfterLast(fields[LocalAddrPortFieldIdx], ':');
      Ok(ComDetails(IngressLabel, "", port, "", name, true))
  }

  predicate IsSuffix(s: string, t: string) {
    |s| <= |t| && t[|t| - |s|..] == s
  }

  /** A parsed line is an ingress entry, required, with no protocol or role
      yet; its port is the text after the last ':' of the fourth field; its
      service is the process name for a host service and the identified
      container's name for any other process. */
  lemma ParseComDetailFields(exec: string -> Result<string, string>, decode: string -> Option<seq<string>>,
                             line: string)
    ensures ExtractServiceName(line).Err? ==>
              ParseComDetail(exec, decode, line) == Err(ExtractServiceName(line).error)
    ensures ParseComDetail(exec, decode, line).Ok? ==>
              var cd := ParseComDetail(exec, decode, line).value;
              ExtractServiceName(line).Ok?
              && cd.direction == IngressLabel && cd.required && cd.protocol == "" && cd.nodeRole == ""
              && |Fields(line)| > LocalAddrPortFieldIdx
              && ':' !in cd.port
              && IsSuffix(cd.port, Fields(line)[LocalAddrPortFieldIdx])
              && (ExtractServiceName(line).value in HostServices ==> cd.serviceName == ExtractServiceName(line).value)
              && (ExtractServiceName(line).value !in HostServices ==>
                    IdentifyContainerForPort(exec, decode, line) == Ok(cd.serviceName))
  {
  }

  /** A line with fewer than four fields has no port column: Go's index
      panics, the model reports it. */
  lemma ShortLineRejected(exec: string -> Result<string, string>, decode: string -> Option<seq<string>>,
                          line: string)
    requires |Fields(line)| <= LocalAddrPortFieldIdx
    ensures ParseComDetail(exec, decode, line).Err?
  {
  }

  /** The line parser as a value, for the scan over all lines. */
  function Parser(exec: string -> Result<string, string>, decode: string -> Option<seq<string>>)
    : (parse: string -> Result<ComDetails, ScanError>)
    ensures forall line :: parse(line) == ParseComDetail(exec, decode, line)
  {
    line => ParseComDetail(exec, decode, line)
  }

  // ---------------------------------------------------------------------------
  // All lines of one table
  // ---------------------------------------------------------------------------

  /** `e` is the parsed entry `parsed` stamped by toComDetails. */
  predicate StampedFrom(e: ComDetails, parsed: ComDetails, protocol: string, roles: string) {
    e.direction == parsed.direction && e.port == parsed.port && e.serviceName == parsed.serviceName
    && e.protocol == protocol && e.nodeRole == roles
    && (e.required <==> e.serviceName !in OptionalProcesses)
  }

  /** toComDetails' stamping of one parsed entry: the protocol, the node's
      role text, and required unless the process is an optional one. */
  function Stamp(cd: ComDetails, protocol: string, roles: string): (e: ComDetails)
    ensures StampedFrom(e, cd, protocol, roles)
  {
    cd.(protocol := protocol, nodeRole := roles, required := cd.serviceName !in OptionalProcesses)
  }

  function StampAll(cds: seq<ComDetails>, protocol: string, roles: string): (r: seq<ComDetails>)
    ensures |r| == |cds|
    ensures forall k | 0 <= k < |cds| :: StampedFrom(r[k], cds[k], protocol, roles)
  {
    seq(|cds|, k requires 0 <= k < |cds| => Stamp(cds[k], protocol, roles))
  }

  lemma StampAllSnoc(cds: seq<ComDetails>, cd: ComDetails, protocol: string, roles: string)
    ensures StampAll(cds + [cd], protocol, roles) == StampAll(cds, protocol, roles) + [Stamp(cd, protocol, roles)]
  {
  }

  /** The lines parsed in order, stopping at the first one that fails. */
  function ParseAll(parse: string -> Result<ComDetails, ScanError>, lines: seq<string>)
    : Result<seq<ComDetails>, ScanError>
  {
    if lines == [] then Ok([])
    else
      var prev :- ParseAll(parse, lines[..|lines| - 1]);
      var cd :- parse(lines[|lines| - 1]);
      Ok(prev + [cd])
  }

  /** The line that aborts a scan: the first one that does not parse. */
  ghost predicate FirstFailure(parse: string -> Result<ComDetails, ScanError>, lines: seq<string>, e: ScanError) {
    exists k | 0 <= k < |lines| :: parse(lines[k]) == Err(e) && forall j | 0 <= j < k :: parse(lines[j]).Ok?
  }

  /** ParseAll succeeds exactly when every line parses, and then holds each
      line's entry at the line's position; otherwise it reports the first
      failing line's error. */
  lemma {:induction false} ParseAllSpec(parse: string -> Result<ComDetails, ScanError>, lines: seq<string>)
    ensures ParseAll(parse, lines).Ok? <==> forall k | 0 <= k < |lines| :: parse(lines[k]).Ok?
    ensures ParseAll(parse, lines).Ok? ==>
              |ParseAll(parse, lines).value| == |lines|
              && forall k | 0 <= k < |lines| :: parse(lines[k]) == Ok(ParseAll(parse, lines).value[k])
    ensures ParseAll(parse, lines).Err? ==> FirstFailure(parse, lines, ParseAll(parse, lines).error)
    decreases |lines|
  {
    if lines != [] {
      var init, last := lines[..|lines| - 1], lines[|lines| - 1];
      ParseAllSpec(parse, init);
      assert forall k | 0 <= k < |init| :: init[k] == lines[k];
      var prev := ParseAll(parse, init);
      if prev.Err? {
        var k :| 0 <= k < |init| && parse(init[k]) == Err(prev.error) && forall j | 0 <= j < k :: parse(init[j]).Ok?;
        assert parse(lines[k]) == Err(prev.error);
      } else if parse(last).Err? {
        assert parse(lines[|lines| - 1]) == Err(ParseAll(parse, lines).error);
      }
    }
  }

  /** Once a prefix of the lines fails, the whole scan fails with that
      prefix's error. */
  lemma {:induction false} ParseAllPrefixErr(parse: string -> Result<ComDetails, ScanError>, lines: seq<string>, n: nat)
    requires n <= |lines| && ParseAll(parse, lines[..n]).Err?
    ensures ParseAll(parse, lines) == ParseAll(parse, lines[..n])
    decreases |lines|
  {
    if n < |lines| {
      var init := lines[..|lines| - 1];
      assert init[..n] == lines[..n];
      ParseAllPrefixErr(parse, init, n);
    } else {
      assert lines[..n] == lines;
    }
  }

  /** ss.toComDetails: one entry per line, in order, all stamped with one role
      text GetRoles gives for the node; the first line that fails aborts the
      whole scan. */
  method ToComDetails(exec: string -> Result<string, string>, decode: string -> Option<seq<string>>,
                      ssOutput: seq<string>, protocol: string, node: Node)
    returns (r: Result<seq<ComDetails>, ScanError>, ghost roles: string)
    ensures r.Ok? <==> ParseAll(Parser(exec, decode), ssOutput).Ok?
    ensures r.Err? ==> r.error == ParseAll(Parser(exec, decode), ssOutput).error
    ensures Nodes.IsRoleString(node.labels.Keys, roles)
    ensures r.Ok? ==> r.value == StampAll(ParseAll(Parser(exec, decode), ssOutput).value, protocol, roles)
  {
    var res: seq<ComDetails> := [];
    ghost var parsed: seq<ComDetails> := [];
    var nodeRoles := Nodes.GetRoles(node);
    roles := nodeRoles;
    for i := 0 to |ssOutput|
      invariant ParseAll(Parser(exec, decode), ssOutput[..i]) == Ok(parsed)
      invariant res == StampAll(parsed, protocol, nodeRoles)
    {
      assert ssOutput[..i + 1][..i] == ssOutput[..i];
      var cd := ParseComDetail(exec, decode, ssOutput[i]);
      assert cd == Parser(exec, decode)(ssOutput[i]);
      if cd.Err? {
        ParseAllPrefixErr(Parser(exec, decode), ssOutput, i + 1);
        r := Err(cd.error);
        return;
      }
      var entry := cd.value.(protocol := protocol, nodeRole := nodeRoles);
      if entry.serviceName in OptionalProcesses {
        entry := entry.(required := false);
      } else {
        entry := entry.(required := true);
      }
      assert entry == Stamp(cd.value, protocol, nodeRoles);
      StampAllSnoc(parsed, cd.value, protocol, nodeRoles);
      res := res + [entry];
      parsed := parsed + [cd.value];
    }
    assert ssOutput[..|ssOutput|] == ssOutput;
    r := Ok(res);
    return;
  }

  // ---------------------------------------------------------------------------
  // Known and unknown ports
  // ---------------------------------------------------------------------------

  /** The isKnownPort closure of FilterPorts over the well-known port tables
      (Go maps from port text to a flag; a missing port reads as false). */
  predicate IsKnownPort(knownTCP: map<string, bool>, knownUDP: map<string, bool>, cd: ComDetails) {
    cd.serviceName in HostServices
    || (cd.protocol == "TCP" && cd.port in knownTCP && knownTCP[cd.port])
    || (cd.protocol == "UDP" && cd.port in knownUDP && knownUDP[cd.port])
  }

  function IsKnown(knownTCP: map<string, bool>, knownUDP: map<string, bool>): (known: ComDetails -> bool)
    ensures forall cd :: known(cd) == IsKnownPort(knownTCP, knownUDP, cd)
  {
    cd => IsKnownPort(knownTCP, knownUDP, cd)
  }

  /** FilterPorts: an order-preserving split into known and unknown entries
      that loses and adds nothing. */
  method FilterPorts(knownTCP: map<string, bool>, knownUDP: map<string, bool>, comDetails: seq<ComDetails>)
    returns (knownPorts: seq<ComDetails>, unknownPorts: seq<ComDetails>)
    ensures knownPorts == Filter(IsKnown(knownTCP, knownUDP), comDetails)
    ensures unknownPorts == Filter(Not(IsKnown(knownTCP, knownUDP)), comDetails)
    ensures multiset(knownPorts) + multiset(unknownPorts) == multiset(comDetails)
  {
    var isKnown := IsKnown(knownTCP, knownUDP);
    knownPorts, unknownPorts := [], [];
    for i := 0 to |comDetails|
      invariant knownPorts == Filter(isKnown, comDetails[..i])
      invariant unknownPorts == Filter(Not(isKnown), comDetails[..i])
    {
      assert comDetails[..i + 1] == comDetails[..i] + [comDetails[i]];
      FilterSnoc(isKnown, comDetails[..i], comDetails[i]);
      FilterSnoc(Not(isKnown), comDetails[..i], comDetails[i]);
      if isKnown(comDetails[i]) {
        knownPorts := knownPorts + [comDetails[i]];
      } else {
        unknownPorts := unknownPorts + [comDetails[i]];
      }
    }
    assert comDetails[..|comDetails|] == comDetails;
    FilterPartition(isKnown, comDetails);
  }

  /** Every host-service entry is known, whatever its port. */
  lemma HostServicesKnown(knownTCP: map<string, bool>, knownUDP: map<string, bool>, comDetails: seq<ComDetails>, cd: ComDetails)
    requires cd in comDetails && cd.serviceName in HostServices
    ensures cd in Filter(IsKnown(knownTCP, knownUDP), comDetails)
    ensures cd !in Filter(Not(IsKnown(knownTCP, knownUDP)), comDetails)
  {
    FilterMembers(IsKnown(knownTCP, knownUDP), comDetails, cd);
    FilterMembers(Not(IsKnown(knownTCP, knownUDP)), comDetails, cd);
  }

  // ---------------------------------------------------------------------------
  // One node
  // ---------------------------------------------------------------------------

  function TcpLines(out: string): seq<string> {
    Filter(Not(TcpFilterOut), SplitByLines(out))
  }

  function UdpLines(out: string): seq<string> {
    Filter(Not(UdpFilterOut), SplitByLines(out))
  }

  /** What a successful scan of one node yields: the UDP entries, then the
      TCP entries, each parsed from its filtered socket table and stamped with
      the protocol and the role text the node gave for that table. */
  ghost predicate NodeScanWith(exec: string -> Result<string, string>, decode: string -> Option<seq<string>>,
                               node: Node, cds: seq<ComDetails>, udpRoles: string, tcpRoles: string) {
    exec(TcpCommand).Ok? && exec(UdpCommand).Ok?
    && Nodes.IsRoleString(node.labels.Keys, udpRoles) && Nodes.IsRoleString(node.labels.Keys, tcpRoles)
    && var udp := ParseAll(Parser(exec, decode), UdpLines(exec(UdpCommand).value));
       var tcp := ParseAll(Parser(exec, decode), TcpLines(exec(TcpCommand).value));
       udp.Ok? && tcp.Ok?
       && cds == StampAll(udp.value, "UDP", udpRoles) + StampAll(tcp.value, "TCP", tcpRoles)
  }

  /** Some role texts of the node make `cds` a successful scan of it. */
  ghost predicate NodeScan(exec: string -> Result<string, string>, decode: string -> Option<seq<string>>,
                           node: Node, cds: seq<ComDetails>) {
    exists udpRoles, tcpRoles :: NodeScanWith(exec, decode, node, cds, udpRoles, tcpRoles)
  }

  lemma NodeScanIntro(exec: string -> Result<string, string>, decode: string -> Option<seq<string>>,
                      node: Node, cds: seq<ComDetails>, udpRoles: string, tcpRoles: string)
    requires NodeScanWith(exec, decode, node, cds, udpRoles, tcpRoles)
    ensures NodeScan(exec, decode, node, cds)
  {
  }

  /** The error a scan of a node stops at, in the order the scan meets them:
      reading the TCP table, reading the UDP table, parsing the TCP lines,
      parsing the UDP lines; None when the scan gets through all four. */
  function NodeScanFailure(exec: string -> Result<string, string>, decode: string -> Option<seq<string>>)
    : Option<ScanError>
  {
    match exec(TcpCommand)
    case Err(e) => Some(ExecFailed(TcpCommand, e))
    case Ok(tcpOut) =>
      match exec(UdpCommand)
      case Err(e) => Some(ExecFailed(UdpCommand, e))
      case Ok(udpOut) =>
        match ParseAll(Parser(exec, decode), TcpLines(tcpOut))
        case Err(e) => Some(e)
        case Ok(_) =>
          match ParseAll(Parser(exec, decode), UdpLines(udpOut))
          case Err(e) => Some(e)
          case Ok(_) => None
  }

  /** CreateComDetailsFromNode: both socket tables are read, filtered and
      parsed; the UDP entries come first, then the TCP entries. The scan
      succeeds exactly when both reads succeed and every kept line of both
      tables parses; otherwise it reports the first failure in the order
      TCP read, UDP read, TCP lines, UDP lines. */
  method CreateComDetailsFromNode(exec: string -> Result<string, string>, decode: string -> Option<seq<string>>,
                                  node: Node)
    returns (r: Result<seq<ComDetails>, ScanError>, ghost udpRoles: string, ghost tcpRoles: string)
    ensures r.Ok? ==> NodeScanWith(exec, decode, node, r.value, udpRoles, tcpRoles)
    ensures r.Ok? <==> NodeScanFailure(exec, decode).None?
    ensures r.Err? ==> NodeScanFailure(exec, decode) == Some(r.error)
    ensures exec(TcpCommand).Err? ==> r == Err(ExecFailed(TcpCommand, exec(TcpCommand).error))
    ensures exec(TcpCommand).Ok? && exec(UdpCommand).Err? ==> r == Err(ExecFailed(UdpCommand, exec(UdpCommand).error))
    ensures exec(TcpCommand).Ok? && exec(UdpCommand).Ok? ==>
              var tcp := ParseAll(Parser(exec, decode), TcpLines(exec(TcpCommand).value));
              var udp := ParseAll(Parser(exec, decode), UdpLines(exec(UdpCommand).value));
              (tcp.Err? ==> r == Err(tcp.error))
              && (tcp.Ok? && udp.Err? ==> r == Err(udp.error))
              && (tcp.Ok? && udp.Ok? ==> r.Ok?)
  {
    udpRoles, tcpRoles := "", "";
    var ssOutTCP := exec(TcpCommand);
    if ssOutTCP.Err? {
      r := Err(ExecFailed(TcpCommand, ssOutTCP.error));
      return;
    }
    var ssOutUDP := exec(UdpCommand);
    if ssOutUDP.Err? {
      r := Err(ExecFailed(UdpCommand, ssOutUDP.error));
      return;
    }
    var filteredTCP := FilterStrings(TcpFilterOut, SplitByLines(ssOutTCP.value));
    var filteredUDP := FilterStrings(UdpFilterOut, SplitByLines(ssOutUDP.value));
    var tcpComDetails;
    tcpComDetails, tcpRoles := ToComDetails(exec, decode, filteredTCP, "TCP", node);
    if tcpComDetails.Err? {
      r := Err(tcpComDetails.error);
      return;
    }
    var udpComDetails;
    udpComDetails, udpRoles := ToComDetails(exec, decode, filteredUDP, "UDP", node);
    if udpComDetails.Err? {
      r := Err(udpComDetails.error);
      return;
    }
    var res := udpComDetails.value + tcpComDetails.value;
    r := Ok(res);
    return;
  }
}
