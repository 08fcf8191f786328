/** The communication matrix of the `types` package: a nine-field entry, its
    text and CSV renderings, its narrow identity (node role, port, protocol)
    and the list operations built on that identity. */
module Types {
  import opened Text
  import Seqs

  /** One ingress listener. */
  datatype ComDetails = ComDetails(
    direction: string,
    protocol: string,
    port: int,
    namespace: string,
    service: string,
    pod: string,
    container: string,
    nodeRole: string,
    optional: bool)

  /** fmt's %v of a bool. */
  function BoolString(b: bool): string {
    if b then "true" else "false"
  }

  /** The nine values ComDetails.String prints, in declaration order. */
  function Cells(cd: ComDetails): seq<string> {
    [cd.direction, cd.protocol, IntToString(cd.port), cd.namespace, cd.service,
     cd.pod, cd.container, cd.nodeRole, BoolString(cd.optional)]
  }

  /** ComDetails.String: the nine values separated by commas. */
  function String(cd: ComDetails): string {
    Join(Cells(cd), ",")
  }

  /** ComMatrix.String: every entry's text followed by a newline. */
  method MatrixString(m: seq<ComDetails>) returns (s: string)
    ensures s == Lines(seq(|m|, i requires 0 <= i < |m| => String(m[i])))
  {
    ghost var strs := seq(|m|, i requires 0 <= i < |m| => String(m[i]));
    s := "";
    for i := 0 to |m|
      invariant s == Lines(strs[..i])
    {
      assert strs[..i + 1][..i] == strs[..i];
      s := s + String(m[i]) + "\n";
    }
    assert strs[..|m|] == strs;
  }

  /** No text field holds a comma (numbers and booleans never do). */
  predicate CommaFree(cd: ComDetails) {
    ',' !in cd.direction && ',' !in cd.protocol && ',' !in cd.namespace && ',' !in cd.service
    && ',' !in cd.pod && ',' !in cd.container && ',' !in cd.nodeRole
  }

  /** No text field holds a newline. */
  predicate NewlineFree(cd: ComDetails) {
    '\n' !in cd.direction && '\n' !in cd.protocol && '\n' !in cd.namespace && '\n' !in cd.service
    && '\n' !in cd.pod && '\n' !in cd.container && '\n' !in cd.nodeRole
  }

  /** The text of an entry whose fields hold no newline is one line. */
  lemma StringNewlineFree(cd: ComDetails)
    requires NewlineFree(cd)
    ensures '\n' !in String(cd)
  {
    IntToStringChars(cd.port, '\n');
    var c := Cells(cd);
    assert forall j | 0 <= j < |c| :: '\n' !in c[j];
    JoinFree(c, ",", '\n');
  }

  /** ToCSV's record as written: the text of the entry cut at every comma. */
  function CsvRecord(cd: ComDetails): seq<string> {
    Split(String(cd), ',')
  }

  /** When no field holds a comma, the CSV record is exactly the nine values,
      so it lines up with the nine-column header. */
  lemma CsvRecordOfCommaFree(cd: ComDetails)
    requires CommaFree(cd)
    ensures CsvRecord(cd) == Cells(cd)
    ensures |CsvRecord(cd)| == 9
  {
    IntToStringChars(cd.port, ',');
    SplitJoin(Cells(cd), ',');
  }

  /** A node carrying both role labels has the role "master,worker"; its CSV
      record then has ten cells, and the Optional column receives "worker". */
  lemma CsvRecordMisaligned(cd: ComDetails)
    requires CommaFree(cd.(nodeRole := ""))
    requires cd.nodeRole == "master,worker"
    ensures |CsvRecord(cd)| == 10
    ensures CsvRecord(cd)[8] == "worker"
  {
    var c := Cells(cd);
    var ten := c[..7] + ["master", "worker"] + c[8..];
    assert "master" + "," + "worker" == "master,worker";
    assert c == c[..7] + [c[7]] + c[8..];
    JoinSplice(c[..7], "master", "worker", c[8..], ",");
    IntToStringChars(cd.port, ',');
    assert forall k | 0 <= k < |ten| :: ',' !in ten[k];
    SplitJoin(ten, ',');
  }

  /** The record the CSV writer should be given: the nine values themselves
      (the writer quotes any value that holds a comma). */
  function CsvFields(cd: ComDetails): (r: seq<string>)
    ensures |r| == 9 && r[7] == cd.nodeRole && r[2] == IntToString(cd.port)
    ensures Join(r, ",") == String(cd)
  {
    Cells(cd)
  }

  /** The corrected record agrees with the record as written wherever the
      latter lines up with the header. */
  lemma CsvFieldsAgree(cd: ComDetails)
    requires CommaFree(cd)
    ensures CsvFields(cd) == CsvRecord(cd)
  {
    CsvRecordOfCommaFree(cd);
  }

  // ---------------------------------------------------------------------------
  // Narrow identity: the "%s-%d-%s" key of node role, port and protocol
  // ---------------------------------------------------------------------------

  function Key(cd: ComDetails): string {
    cd.nodeRole + "-" + IntToString(cd.port) + "-" + cd.protocol
  }

  /** ComDetails.Equals: the two keys are the same text. */
  predicate Equals(a: ComDetails, b: ComDetails) {
    Key(a) == Key(b)
  }

  /** Same node role, port and protocol. */
  predicate NarrowEqual(a: ComDetails, b: ComDetails) {
    a.nodeRole == b.nodeRole && a.port == b.port && a.protocol == b.protocol
  }

  predicate Dashless(cd: ComDetails) {
    '-' !in cd.nodeRole && '-' !in cd.protocol
  }

  /** Equals ignores direction, namespace, service, pod, container and the
      optional flag; it is exactly narrow equality when neither the role nor
      the protocol holds a '-'. */
  lemma EqualsIsNarrow(a: ComDetails, b: ComDetails)
    ensures NarrowEqual(a, b) ==> Equals(a, b)
    ensures Dashless(a) && Dashless(b) && Equals(a, b) ==> NarrowEqual(a, b)
  {
    if Dashless(a) && Dashless(b) && Equals(a, b) {
      var pa, pb := IntToString(a.port), IntToString(b.port);
      assert Key(a) == a.nodeRole + ['-'] + (pa + ['-'] + a.protocol);
      assert Key(b) == b.nodeRole + ['-'] + (pb + ['-'] + b.protocol);
      SplitAtFirst(a.nodeRole, pa + ['-'] + a.protocol, b.nodeRole, pb + ['-'] + b.protocol, '-');
      SplitAtLast(pa, a.protocol, pb, b.protocol, '-');
      IntToStringInjective(a.port, b.port);
    }
  }

  /** Because the key is formatted text, a '-' inside the role or protocol lets
      two different (role, port, protocol) triples compare equal. */
  lemma KeyCollision()
    ensures exists a, b :: Equals(a, b) && !NarrowEqual(a, b)
  {
    var a := ComDetails("", "x", 2, "", "", "", "", "a-1", false);
    var b := ComDetails("", "2-x", 1, "", "", "", "", "a", false);
    assert DigitChar(2) == '2' && DigitChar(1) == '1';
    assert IntToString(2) == "2" && IntToString(1) == "1";
    assert Key(a) == "a-1-2-x" == Key(b);
    assert Equals(a, b) && !NarrowEqual(a, b);
  }

  // ---------------------------------------------------------------------------
  // RemoveDups: keep the first entry of every key, in input order
  // ---------------------------------------------------------------------------

  function KeySet(s: seq<ComDetails>): set<string> {
    set i | 0 <= i < |s| :: Key(s[i])
  }

  lemma KeySetSnoc(s: seq<ComDetails>, x: ComDetails)
    ensures KeySet(s + [x]) == KeySet(s) + {Key(x)}
  {
    var t := s + [x];
    assert forall i | 0 <= i < |s| :: t[i] == s[i];
    assert t[|s|] == x;
  }

  /** The specification of RemoveDups: an entry is kept iff no earlier entry
      has its key. */
  function FirstByKey(s: seq<ComDetails>): seq<ComDetails> {
    if s == [] then []
    else
      var init, last := s[..|s| - 1], s[|s| - 1];
      if Key(last) in KeySet(init) then FirstByKey(init) else FirstByKey(init) + [last]
  }

  lemma FirstByKeySnoc(s: seq<ComDetails>, x: ComDetails)
    ensures FirstByKey(s + [x]) == if Key(x) in KeySet(s) then FirstByKey(s) else FirstByKey(s) + [x]
  {
    assert (s + [x])[..|s|] == s;
  }

  /** Of two entries with one key, the one that arrives first is kept: the
      result depends on the order of its input. */
  lemma FirstByKeyArrivalOrder(a: ComDetails, b: ComDetails)
    requires Key(a) == Key(b)
    ensures FirstByKey([a, b]) == [a] && FirstByKey([b, a]) == [b]
  {
    FirstByKeySnoc([], a);
    FirstByKeySnoc([], b);
    FirstByKeySnoc([a], b);
    FirstByKeySnoc([b], a);
    assert Key(a) in KeySet([a]) && Key(b) in KeySet([b]);
  }

  /** types.RemoveDups, with the map of seen keys as a set. */
  method RemoveDups(outPuts: seq<ComDetails>) returns (res: seq<ComDetails>)
    ensures res == FirstByKey(outPuts)
  {
    var allKeys: set<string> := {};
    res := [];
    for i := 0 to |outPuts|
      invariant res == FirstByKey(outPuts[..i])
      invariant allKeys == KeySet(outPuts[..i])
    {
      assert outPuts[..i + 1] == outPuts[..i] + [outPuts[i]];
      FirstByKeySnoc(outPuts[..i], outPuts[i]);
      KeySetSnoc(outPuts[..i], outPuts[i]);
      var str := Key(outPuts[i]);
      if str !in allKeys {
        allKeys := allKeys + {str};
        res := res + [outPuts[i]];
      }
    }
    assert outPuts[..|outPuts|] == outPuts;
  }

  predicate UniqueKeys(r: seq<ComDetails>) {
    forall i, j | 0 <= i < j < |r| :: !Equals(r[i], r[j])
  }

  /** RemoveDups keeps only entries of the input. */
  lemma {:induction false} FirstByKeyFromInput(s: seq<ComDetails>)
    ensures multiset(FirstByKey(s)) <= multiset(s)
    decreases |s|
  {
    if s != [] {
      var init, last := s[..|s| - 1], s[|s| - 1];
      FirstByKeyFromInput(init);
      Seqs.Snoc(s);
      assert multiset(s) == multiset(init) + multiset{last};
      if Key(last) !in KeySet(init) {
        assert FirstByKey(s) == FirstByKey(init) + [last];
      }
    }
  }

  /** RemoveDups loses no key. */
  lemma {:induction false} FirstByKeyKeys(s: seq<ComDetails>)
    ensures KeySet(FirstByKey(s)) == KeySet(s)
    decreases |s|
  {
    if s != [] {
      var init, last := s[..|s| - 1], s[|s| - 1];
      FirstByKeyKeys(init);
      assert s == init + [last];
      KeySetSnoc(init, last);
      KeySetSnoc(FirstByKey(init), last);
    }
  }

  /** No two entries RemoveDups keeps are Equals. */
  lemma {:induction false} FirstByKeyUnique(s: seq<ComDetails>)
    ensures UniqueKeys(FirstByKey(s))
    decreases |s|
  {
    if s != [] {
      var init, last := s[..|s| - 1], s[|s| - 1];
      var p := FirstByKey(init);
      FirstByKeyUnique(init);
      if Key(last) !in KeySet(init) {
        FirstByKeyKeys(init);
        var r := p + [last];
        assert forall i | 0 <= i < |p| :: r[i] == p[i] && Key(p[i]) in KeySet(p);
      }
    }
  }

  /** Every input entry is Equals to some entry RemoveDups keeps. */
  lemma FirstByKeyCovers(s: seq<ComDetails>, i: nat)
    requires i < |s|
    ensures exists j | 0 <= j < |FirstByKey(s)| :: Equals(s[i], FirstByKey(s)[j])
  {
    FirstByKeyKeys(s);
    assert Key(s[i]) in KeySet(s);
  }

  /** An entry whose key does not occur earlier is kept. */
  lemma {:induction false} FirstByKeyKeepsFirst(s: seq<ComDetails>, i: nat)
    requires i < |s| && Key(s[i]) !in KeySet(s[..i])
    ensures s[i] in FirstByKey(s)
    decreases |s|
  {
    var init := s[..|s| - 1];
    if i < |s| - 1 {
      assert init[..i] == s[..i];
      FirstByKeyKeepsFirst(init, i);
    } else {
      assert s[..i] == init;
    }
  }

  /** A list whose keys are already distinct is left alone, so RemoveDups is
      idempotent. */
  lemma {:induction false} FirstByKeyOfUnique(s: seq<ComDetails>)
    requires UniqueKeys(s)
    ensures FirstByKey(s) == s
    decreases |s|
  {
    if s != [] {
      var init := s[..|s| - 1];
      assert forall i | 0 <= i < |init| :: init[i] == s[i];
      FirstByKeyOfUnique(init);
      var last := s[|s| - 1];
      assert forall i | 0 <= i < |init| :: !Equals(init[i], last);
      KeyNotIn(init, last);
      Seqs.Snoc(s);
    }
  }

  lemma KeyNotIn(s: seq<ComDetails>, x: ComDetails)
    requires forall i | 0 <= i < |s| :: !Equals(s[i], x)
    ensures Key(x) !in KeySet(s)
  {
    forall k | k in KeySet(s) ensures k != Key(x) {
      var i :| 0 <= i < |s| && Key(s[i]) == k;
      assert !Equals(s[i], x);
    }
  }

  lemma RemoveDupsIdempotent(s: seq<ComDetails>)
    ensures FirstByKey(FirstByKey(s)) == FirstByKey(s)
  {
    FirstByKeyUnique(s);
    FirstByKeyOfUnique(FirstByKey(s));
  }

  // ---------------------------------------------------------------------------
  // Contains and Diff
  // ---------------------------------------------------------------------------

  /** Some entry of `m` is Equals to `cd`. */
  predicate HasMatch(m: seq<ComDetails>, cd: ComDetails) {
    exists j | 0 <= j < |m| :: Equals(m[j], cd)
  }

  /** ComMatrix.Contains */
  method Contains(m: seq<ComDetails>, cd: ComDetails) returns (found: bool)
    ensures found <==> HasMatch(m, cd)
  {
    for i := 0 to |m|
      invariant forall j | 0 <= j < i :: !Equals(m[j], cd)
    {
      if Equals(m[i], cd) {
        return true;
      }
    }
    return false;
  }

  /** The specification of Diff: the entries of `m`, in order, that have no
      Equals partner in `other`. */
  function Unmatched(m: seq<ComDetails>, other: seq<ComDetails>): seq<ComDetails> {
    if m == [] then []
    else
      var init, last := m[..|m| - 1], m[|m| - 1];
      Unmatched(init, other) + (if HasMatch(other, last) then [] else [last])
  }

  /** ComMatrix.Diff */
  method Diff(m: seq<ComDetails>, other: seq<ComDetails>) returns (diff: seq<ComDetails>)
    ensures diff == Unmatched(m, other)
  {
    diff := [];
    for i := 0 to |m|
      invariant diff == Unmatched(m[..i], other)
    {
      // The inner search is the loop of Contains (Equals is symmetric).
      var found := Contains(other, m[i]);
      assert found == HasMatch(other, m[i]);
      UnmatchedSnoc(m, other, i);
      if !found {
        diff := diff + [m[i]];
      }
    }
    assert m[..|m|] == m;
  }

  lemma UnmatchedSnoc(m: seq<ComDetails>, other: seq<ComDetails>, i: nat)
    requires i < |m|
    ensures Unmatched(m[..i + 1], other) == Unmatched(m[..i], other) + (if HasMatch(other, m[i]) then [] else [m[i]])
  {
    assert m[..i + 1][..i] == m[..i];
  }

  lemma {:induction false} UnmatchedMembers(m: seq<ComDetails>, other: seq<ComDetails>, x: ComDetails)
    ensures x in Unmatched(m, other) <==> x in m && !HasMatch(other, x)
    decreases |m|
  {
    if m != [] {
      UnmatchedMembers(m[..|m| - 1], other, x);
      assert m == m[..|m| - 1] + [m[|m| - 1]];
    }
  }

  lemma {:induction false} UnmatchedAllMatched(m: seq<ComDetails>, other: seq<ComDetails>)
    requires forall i | 0 <= i < |m| :: HasMatch(other, m[i])
    ensures Unmatched(m, other) == []
    decreases |m|
  {
    if m != [] {
      UnmatchedAllMatched(m[..|m| - 1], other);
    }
  }

  /** m.Diff(m) is empty. */
  lemma DiffSelf(m: seq<ComDetails>)
    ensures Unmatched(m, m) == []
  {
    forall i | 0 <= i < |m| ensures HasMatch(m, m[i]) {
      assert Equals(m[i], m[i]);
    }
    UnmatchedAllMatched(m, m);
  }

  /** m.Diff(empty) is m. */
  lemma {:induction false} DiffEmpty(m: seq<ComDetails>)
    ensures Unmatched(m, []) == m
    decreases |m|
  {
    if m != [] {
      DiffEmpty(m[..|m| - 1]);
      assert m == m[..|m| - 1] + [m[|m| - 1]];
    }
  }

  // ---------------------------------------------------------------------------
  // CmpComDetails: by node role, then protocol, then port
  // ---------------------------------------------------------------------------

  function CmpComDetails(a: ComDetails, b: ComDetails): (r: int)
    ensures -1 <= r <= 1
    ensures r == 0 <==> NarrowEqual(a, b)
  {
    var byRole := CompareStrings(a.nodeRole, b.nodeRole);
    if byRole != 0 then byRole
    else
      var byProtocol := CompareStrings(a.protocol, b.protocol);
      if byProtocol != 0 then byProtocol else CompareInts(a.port, b.port)
  }

  lemma CmpAntisymmetric(a: ComDetails, b: ComDetails)
    ensures CmpComDetails(b, a) == -CmpComDetails(a, b)
  {
    CompareStringsAntisymmetric(a.nodeRole, b.nodeRole);
    CompareStringsAntisymmetric(a.protocol, b.protocol);
  }

  lemma CmpTransitive(a: ComDetails, b: ComDetails, c: ComDetails)
    requires CmpComDetails(a, b) <= 0 && CmpComDetails(b, c) <= 0
    ensures CmpComDetails(a, c) <= 0
  {
    if a.nodeRole != b.nodeRole && b.nodeRole != c.nodeRole {
      CompareStringsTransitive(a.nodeRole, b.nodeRole, c.nodeRole);
    } else if a.nodeRole == b.nodeRole && b.nodeRole == c.nodeRole
      && a.protocol != b.protocol && b.protocol != c.protocol {
      CompareStringsTransitive(a.protocol, b.protocol, c.protocol);
    }
  }

  predicate Sorted(s: seq<ComDetails>) {
    forall i, j | 0 <= i < j < |s| :: CmpComDetails(s[i], s[j]) <= 0
  }

  /** A reference sort by CmpComDetails, used to show that a sorted
      arrangement of any list exists. */
  function Insert(x: ComDetails, s: seq<ComDetails>): (r: seq<ComDetails>)
    ensures multiset(r) == multiset(s) + multiset{x}
  {
    if s == [] then [x]
    else if CmpComDetails(x, s[0]) <= 0 then [x] + s
    else
      assert s == [s[0]] + s[1..];
      [s[0]] + Insert(x, s[1..])
  }

  lemma {:induction false} InsertSorted(x: ComDetails, s: seq<ComDetails>)
    requires Sorted(s)
    ensures Sorted(Insert(x, s))
    decreases |s|
  {
    if s != [] {
      if CmpComDetails(x, s[0]) <= 0 {
        forall j | 0 <= j < |s| ensures CmpComDetails(x, s[j]) <= 0 {
          if j > 0 { CmpTransitive(x, s[0], s[j]); }
        }
        SortedCons(x, s);
      } else {
        CmpAntisymmetric(x, s[0]);
        InsertSorted(x, s[1..]);
        var t := Insert(x, s[1..]);
        forall k | 0 <= k < |t| ensures CmpComDetails(s[0], t[k]) <= 0 {
          assert t[k] in multiset(t);
          if t[k] != x {
            assert t[k] in multiset(s[1..]);
            var j :| 0 <= j < |s[1..]| && s[1..][j] == t[k];
            assert s[j + 1] == t[k];
          }
        }
        SortedCons(s[0], t);
      }
    }
  }

  /** A sorted list stays sorted under a head that is at most every element. */
  lemma SortedCons(h: ComDetails, t: seq<ComDetails>)
    requires Sorted(t)
    requires forall k | 0 <= k < |t| :: CmpComDetails(h, t[k]) <= 0
    ensures Sorted([h] + t)
  {
    var r := [h] + t;
    forall i, j | 0 <= i < j < |r| ensures CmpComDetails(r[i], r[j]) <= 0 {
      assert r[j] == t[j - 1];
      if i > 0 { assert r[i] == t[i - 1]; }
    }
  }

  /** A list with no two Equals entries has one arrangement sorted by
      CmpComDetails: an unstable sort cannot change the outcome. */
  /** The first entries of two sorted arrangements of the same entries
      without Equals pairs are the same entry. */
  lemma SortedHeads(a: seq<ComDetails>, b: seq<ComDetails>)
    requires a != [] && Sorted(a) && Sorted(b) && multiset(a) == multiset(b) && UniqueKeys(a)
    ensures b != [] && a[0] == b[0]
  {
    assert a[0] in multiset(b);
    assert b[0] in multiset(a);
    var j :| 0 <= j < |b| && b[j] == a[0];
    var i :| 0 <= i < |a| && a[i] == b[0];
    assert CmpComDetails(b[0], a[0]) <= 0 by { if j > 0 { assert CmpComDetails(b[0], b[j]) <= 0; } }
    assert CmpComDetails(a[0], b[0]) <= 0 by { if i > 0 { assert CmpComDetails(a[0], a[i]) <= 0; } }
    CmpAntisymmetric(a[0], b[0]);
    EqualsIsNarrow(a[0], a[i]);
  }

  lemma SortedTail(a: seq<ComDetails>)
    requires a != [] && Sorted(a)
    ensures Sorted(a[1..])
  {
    forall i, j | 0 <= i < j < |a| - 1 ensures CmpComDetails(a[1..][i], a[1..][j]) <= 0 {
      assert a[1..][i] == a[i + 1] && a[1..][j] == a[j + 1];
    }
  }

  lemma UniqueKeysTail(a: seq<ComDetails>)
    requires a != [] && UniqueKeys(a)
    ensures UniqueKeys(a[1..])
  {
    forall i, j | 0 <= i < j < |a| - 1 ensures !Equals(a[1..][i], a[1..][j]) {
      assert a[1..][i] == a[i + 1] && a[1..][j] == a[j + 1];
    }
  }

  /** A list sorted by CmpComDetails without Equals pairs is fixed by its
      entries: the unstable sort cannot give two different results. */
  lemma {:induction false} SortedUnique(a: seq<ComDetails>, b: seq<ComDetails>)
    requires Sorted(a) && Sorted(b) && multiset(a) == multiset(b) && UniqueKeys(a)
    ensures a == b
    decreases |a|
  {
    if a == [] {
      assert |b| == |multiset(b)| == 0;
    } else {
      SortedHeads(a, b);
      Seqs.SameTails(a, b);
      SortedTail(a);
      SortedTail(b);
      UniqueKeysTail(a);
      SortedUnique(a[1..], b[1..]);
      assert a == [a[0]] + a[1..] && b == [b[0]] + b[1..];
    }
  }

  function SortByCmp(s: seq<ComDetails>): (r: seq<ComDetails>)
    ensures multiset(r) == multiset(s)
  {
    if s == [] then []
    else
      assert s == [s[0]] + s[1..];
      Insert(s[0], SortByCmp(s[1..]))
  }

  lemma {:induction false} SortByCmpSorted(s: seq<ComDetails>)
    ensures Sorted(SortByCmp(s))
  {
    if s != [] {
      SortByCmpSorted(s[1..]);
      InsertSorted(s[0], SortByCmp(s[1..]));
    }
  }
}
