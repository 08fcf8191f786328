/** The command-line tool: the flags it accepts, the matrix it builds from
    the socket scan alone, and the text report of how that matrix and the
    generated one differ. Serialisation, files, the cluster client and the
    debug pods are outside the model. */
module Cmd {
  import opened Wrappers
  import opened Text
  import Types
  import Seqs

  // ---------------------------------------------------------------------------
  // Flags
  // ---------------------------------------------------------------------------

  datatype Format = Json | Csv | Yaml
  datatype Env = Baremetal | Aws
  datatype Deployment = Mno | Sno

  function FormatName(f: Format): string {
    match f
    case Json => "json"
    case Csv => "csv"
    case Yaml => "yaml"
  }

  function EnvName(e: Env): string {
    match e
    case Baremetal => "baremetal"
    case Aws => "aws"
  }

  function DeploymentName(d: Deployment): string {
    match d
    case Mno => "mno"
    case Sno => "sno"
  }

  /** The -format switch: json, csv or yaml, exactly as spelt. */
  function ParseFormat(s: string): (r: Option<Format>)
    ensures r.Some? <==> s == "json" || s == "csv" || s == "yaml"
    ensures r.Some? ==> FormatName(r.value) == s
  {
    if s == "json" then Some(Json)
    else if s == "csv" then Some(Csv)
    else if s == "yaml" then Some(Yaml)
    else None
  }

  /** The -env switch: baremetal or aws. */
  function ParseEnv(s: string): (r: Option<Env>)
    ensures r.Some? <==> s == "baremetal" || s == "aws"
    ensures r.Some? ==> EnvName(r.value) == s
  {
    if s == "baremetal" then Some(Baremetal)
    else if s == "aws" then Some(Aws)
    else None
  }

  /** The -deployment switch: mno or sno. */
  function ParseDeployment(s: string): (r: Option<Deployment>)
    ensures r.Some? <==> s == "mno" || s == "sno"
    ensures r.Some? ==> DeploymentName(r.value) == s
  {
    if s == "mno" then Some(Mno)
    else if s == "sno" then Some(Sno)
    else None
  }

  const DefaultDestDir := "communication-matrix"
  const DefaultFormat := "csv"
  const DefaultEnv := "baremetal"
  const DefaultDeployment := "mno"

  datatype Options = Options(format: Format, kubeconfig: string, env: Env, deployment: Deployment)

  /** Why the tool stops (with a panic) before doing any work. */
  datatype UsageError =
    | InvalidFormat(format: string)
    | NoKubeconfig
    | InvalidEnv(env: string)
    | InvalidDeployment(deployment: string)

  /** The checks main makes, in its order: the format, then KUBECONFIG (None
      when the variable is unset), then the environment, then the deployment
      type. The first that fails is the one reported. */
  function ParseOptions(format: string, kubeconfig: Option<string>, env: string, deployment: string)
    : (r: Result<Options, UsageError>)
    ensures r.Ok? <==> ParseFormat(format).Some? && kubeconfig.Some? && ParseEnv(env).Some? && ParseDeployment(deployment).Some?
    ensures r.Ok? ==> FormatName(r.value.format) == format && r.value.kubeconfig == kubeconfig.value
                      && EnvName(r.value.env) == env && DeploymentName(r.value.deployment) == deployment
    ensures ParseFormat(format).None? ==> r == Err(InvalidFormat(format))
    ensures ParseFormat(format).Some? && kubeconfig.None? ==> r == Err(NoKubeconfig)
    ensures ParseFormat(format).Some? && kubeconfig.Some? && ParseEnv(env).None? ==> r == Err(InvalidEnv(env))
    ensures ParseFormat(format).Some? && kubeconfig.Some? && ParseEnv(env).Some? && ParseDeployment(deployment).None?
            ==> r == Err(InvalidDeployment(deployment))
  {
    match ParseFormat(format)
    case None => Err(InvalidFormat(format))
    case Some(f) =>
      match kubeconfig
      case None => Err(NoKubeconfig)
      case Some(k) =>
        match ParseEnv(env)
        case None => Err(InvalidEnv(env))
        case Some(e) =>
          match ParseDeployment(deployment)
          case None => Err(InvalidDeployment(deployment))
          case Some(d) => Ok(Options(f, k, e, d))
  }

  /** Every format, environment and deployment the tool knows is reachable
      by its name, and the defaults select CSV on bare metal, multi-node. */
  lemma OptionsByName(f: Format, k: string, e: Env, d: Deployment)
    ensures ParseOptions(FormatName(f), Some(k), EnvName(e), DeploymentName(d)) == Ok(Options(f, k, e, d))
    ensures ParseOptions(DefaultFormat, Some(k), DefaultEnv, DefaultDeployment) == Ok(Options(Csv, k, Baremetal, Mno))
  {
    match f {
      case Json => assert FormatName(f) == "json";
      case Csv => assert FormatName(f) == "csv";
      case Yaml => assert FormatName(f) == "yaml";
    }
  }

  // ---------------------------------------------------------------------------
  // The matrix of the socket scan
  // ---------------------------------------------------------------------------

  /** The scan entries of all nodes, concatenated, are narrowed to the first
      entry of every key and sorted by CmpComDetails. slices.SortFunc is not
      stable; any sorted arrangement will do, and SortedScanDetermined shows
      there is only one. */
  method ScanMatrix(nodesComDetails: seq<Types.ComDetails>) returns (m: seq<Types.ComDetails>)
    ensures Types.Sorted(m)
    ensures multiset(m) == multiset(Types.FirstByKey(nodesComDetails))
  {
    var cleaned := Types.RemoveDups(nodesComDetails);
    m := Types.SortByCmp(cleaned);
    Types.SortByCmpSorted(cleaned);
  }

  /** Two sorted arrangements of the narrowed scan are the same list. */
  lemma SortedScanDetermined(nodesComDetails: seq<Types.ComDetails>, m: seq<Types.ComDetails>, m': seq<Types.ComDetails>)
    requires Types.Sorted(m) && multiset(m) == multiset(Types.FirstByKey(nodesComDetails))
    requires Types.Sorted(m') && multiset(m') == multiset(Types.FirstByKey(nodesComDetails))
    ensures m == m'
  {
    var r := Types.FirstByKey(nodesComDetails);
    Types.FirstByKeyUnique(nodesComDetails);
    forall i, j | 0 <= i < j < |m| ensures !Types.Equals(m[i], m[j]) {
      DistinctPositions(m, r, i, j);
    }
    Types.SortedUnique(m, m');
  }

  /** Two positions of a permutation of a list without Equals pairs hold
      entries that are not Equals. */
  lemma DistinctPositions(m: seq<Types.ComDetails>, r: seq<Types.ComDetails>, i: nat, j: nat)
    requires multiset(m) == multiset(r) && Types.UniqueKeys(r)
    requires i < j < |m|
    ensures !Types.Equals(m[i], m[j])
  {
    Seqs.TwicePlaced(m, i, j);
    RepeatedNotUnique(r, m[i]);
    assert m[i] in multiset(r) && m[j] in multiset(r);
    var i' :| 0 <= i' < |r| && r[i'] == m[i];
    var j' :| 0 <= j' < |r| && r[j'] == m[j];
    if i' < j' {
      assert !Types.Equals(r[i'], r[j']);
    } else {
      assert !Types.Equals(r[j'], r[i']);
    }
  }

  /** A list holding an entry twice has an Equals pair. */
  lemma RepeatedNotUnique(r: seq<Types.ComDetails>, x: Types.ComDetails)
    ensures multiset(r)[x] >= 2 ==> !Types.UniqueKeys(r)
  {
    if multiset(r)[x] >= 2 {
      Seqs.TwoPlaces(r, x);
      var k, l :| 0 <= k < l < |r| && r[k] == x && r[l] == x;
      assert Types.Equals(r[k], r[l]);
    }
  }

  // ---------------------------------------------------------------------------
  // The diff report
  // ---------------------------------------------------------------------------

  /** The line for an entry of the generated matrix: plain when the scan has
      it, marked "+ " when only the generated matrix has it. */
  function MatLine(ssMat: seq<Types.ComDetails>, cd: Types.ComDetails): string {
    if Types.HasMatch(ssMat, cd) then Types.String(cd) else "+ " + Types.String(cd)
  }

  function MatLines(mat: seq<Types.ComDetails>, ssMat: seq<Types.ComDetails>): (r: seq<string>)
    ensures |r| == |mat|
  {
    if mat == [] then []
    else MatLines(mat[..|mat| - 1], ssMat) + [MatLine(ssMat, mat[|mat| - 1])]
  }

  /** The lines of scan entries the generated matrix lacks, marked "- ". */
  function RemovedLines(extra: seq<Types.ComDetails>): (r: seq<string>)
    ensures |r| == |extra|
  {
    if extra == [] then []
    else RemovedLines(extra[..|extra| - 1]) + ["- " + Types.String(extra[|extra| - 1])]
  }

  /** The report's lines: one per generated entry, in order, then one per
      scan entry the generated matrix does not contain, in scan order. */
  function DiffLines(mat: seq<Types.ComDetails>, ssMat: seq<Types.ComDetails>): (r: seq<string>)
    ensures |r| == |mat| + |Types.Unmatched(ssMat, mat)|
  {
    MatLines(mat, ssMat) + RemovedLines(Types.Unmatched(ssMat, mat))
  }

  /** diff: both loops append a line and a newline to the report. */
  method Diff(mat: seq<Types.ComDetails>, ssMat: seq<Types.ComDetails>) returns (diff: string)
    ensures diff == Lines(DiffLines(mat, ssMat))
  {
    diff := "";
    for i := 0 to |mat|
      invariant diff == Lines(MatLines(mat[..i], ssMat))
    {
      var cd := mat[i];
      MatLinesStep(mat, ssMat, i);
      var found := Types.Contains(ssMat, cd);
      if found {
        diff := diff + (Types.String(cd) + "\n");
        continue;
      }
      diff := diff + ("+ " + Types.String(cd) + "\n");
    }
    assert mat[..|mat|] == mat;
    ghost var kept := MatLines(mat, ssMat);
    assert Types.Unmatched(ssMat[..0], mat) == [];
    assert kept + [] == kept;
    for i := 0 to |ssMat|
      invariant diff == Lines(kept + RemovedLines(Types.Unmatched(ssMat[..i], mat)))
    {
      var cd := ssMat[i];
      RemovedLinesStep(kept, ssMat, mat, i);
      var found := Types.Contains(mat, cd);
      if !found {
        diff := diff + ("- " + Types.String(cd) + "\n");
      }
    }
    assert ssMat[..|ssMat|] == ssMat;
  }

  lemma MatLinesStep(mat: seq<Types.ComDetails>, ssMat: seq<Types.ComDetails>, i: nat)
    requires i < |mat|
    ensures Types.HasMatch(ssMat, mat[i]) ==>
      Lines(MatLines(mat[..i + 1], ssMat)) == Lines(MatLines(mat[..i], ssMat)) + (Types.String(mat[i]) + "\n")
    ensures !Types.HasMatch(ssMat, mat[i]) ==>
      Lines(MatLines(mat[..i + 1], ssMat)) == Lines(MatLines(mat[..i], ssMat)) + ("+ " + Types.String(mat[i]) + "\n")
  {
    Seqs.PrefixOfPrefix(mat, i, i + 1);
    LinesSnoc(MatLines(mat[..i], ssMat), MatLine(ssMat, mat[i]));
  }

  lemma RemovedLinesStep(kept: seq<string>, ssMat: seq<Types.ComDetails>, mat: seq<Types.ComDetails>, i: nat)
    requires i < |ssMat|
    ensures Types.HasMatch(mat, ssMat[i]) ==>
      Lines(kept + RemovedLines(Types.Unmatched(ssMat[..i + 1], mat))) == Lines(kept + RemovedLines(Types.Unmatched(ssMat[..i], mat)))
    ensures !Types.HasMatch(mat, ssMat[i]) ==>
      Lines(kept + RemovedLines(Types.Unmatched(ssMat[..i + 1], mat)))
      == Lines(kept + RemovedLines(Types.Unmatched(ssMat[..i], mat))) + ("- " + Types.String(ssMat[i]) + "\n")
  {
    var cd := ssMat[i];
    var removed := Types.Unmatched(ssMat[..i], mat);
    Types.UnmatchedSnoc(ssMat, mat, i);
    if Types.HasMatch(mat, cd) {
      assert removed + [] == removed;
    } else {
      Seqs.SnocPrefix(removed, cd);
      var line := "- " + Types.String(cd);
      assert RemovedLines(removed + [cd]) == RemovedLines(removed) + [line];
      assert kept + (RemovedLines(removed) + [line]) == (kept + RemovedLines(removed)) + [line];
      LinesSnoc(kept + RemovedLines(removed), line);
    }
  }

  lemma {:induction false} MatLinesIndex(mat: seq<Types.ComDetails>, ssMat: seq<Types.ComDetails>, k: nat)
    requires k < |mat|
    ensures MatLines(mat, ssMat)[k] == MatLine(ssMat, mat[k])
    decreases |mat|
  {
    if k < |mat| - 1 {
      MatLinesIndex(mat[..|mat| - 1], ssMat, k);
    }
  }

  lemma {:induction false} RemovedLinesIndex(extra: seq<Types.ComDetails>, k: nat)
    requires k < |extra|
    ensures RemovedLines(extra)[k] == "- " + Types.String(extra[k])
    decreases |extra|
  {
    if k < |extra| - 1 {
      RemovedLinesIndex(extra[..|extra| - 1], k);
    }
  }

  /** What each line of the report says: line k < |mat| is entry k of the
      generated matrix, marked "+ " exactly when the scan lacks it; every
      later line is a scan entry the generated matrix lacks, marked "- ". */
  lemma DiffLineMeaning(mat: seq<Types.ComDetails>, ssMat: seq<Types.ComDetails>, k: nat)
    requires k < |DiffLines(mat, ssMat)|
    ensures k < |mat| && Types.HasMatch(ssMat, mat[k]) ==> DiffLines(mat, ssMat)[k] == Types.String(mat[k])
    ensures k < |mat| && !Types.HasMatch(ssMat, mat[k]) ==> DiffLines(mat, ssMat)[k] == "+ " + Types.String(mat[k])
    ensures k >= |mat| ==> exists x | x in ssMat && !Types.HasMatch(mat, x) :: DiffLines(mat, ssMat)[k] == "- " + Types.String(x)
  {
    var extra := Types.Unmatched(ssMat, mat);
    if k < |mat| {
      MatLinesIndex(mat, ssMat, k);
    } else {
      var x := extra[k - |mat|];
      RemovedLinesIndex(extra, k - |mat|);
      Types.UnmatchedMembers(ssMat, mat, x);
      assert DiffLines(mat, ssMat)[k] == "- " + Types.String(x);
    }
  }

  /** A matrix compared with itself reports every entry as a plain line and
      nothing else. */
  lemma DiffOfSelf(m: seq<Types.ComDetails>)
    ensures |DiffLines(m, m)| == |m|
    ensures forall k | 0 <= k < |m| :: DiffLines(m, m)[k] == Types.String(m[k])
  {
    Types.DiffSelf(m);
    forall k | 0 <= k < |m| ensures DiffLines(m, m)[k] == Types.String(m[k]) {
      assert Types.Equals(m[k], m[k]);
      DiffLineMeaning(m, m, k);
    }
  }

  /** Against an empty scan every generated entry is marked "+ ". */
  lemma DiffOfEmptyScan(mat: seq<Types.ComDetails>)
    ensures |DiffLines(mat, [])| == |mat|
    ensures forall k | 0 <= k < |mat| :: DiffLines(mat, [])[k] == "+ " + Types.String(mat[k])
  {
    forall k | 0 <= k < |mat| ensures DiffLines(mat, [])[k] == "+ " + Types.String(mat[k]) {
      DiffLineMeaning(mat, [], k);
    }
  }

  /** Every line of the report ends with a newline: when no field holds one,
      cutting the report at newlines gives back its lines, then the empty
      text after the last newline. */
  lemma DiffTextLines(mat: seq<Types.ComDetails>, ssMat: seq<Types.ComDetails>)
    requires forall k | 0 <= k < |mat| :: Types.NewlineFree(mat[k])
    requires forall k | 0 <= k < |ssMat| :: Types.NewlineFree(ssMat[k])
    ensures Split(Lines(DiffLines(mat, ssMat)), '\n') == DiffLines(mat, ssMat) + [""]
  {
    var ls := DiffLines(mat, ssMat);
    forall k | 0 <= k < |ls| ensures '\n' !in ls[k] {
      DiffLineMeaning(mat, ssMat, k);
      if k < |mat| {
        Types.StringNewlineFree(mat[k]);
      } else {
        var x :| x in ssMat && !Types.HasMatch(mat, x) && ls[k] == "- " + Types.String(x);
        Types.StringNewlineFree(x);
      }
    }
    SplitLines(ls);
  }
}
