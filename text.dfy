/** The pieces of Go's `strings`, `strconv`, `fmt` and `cmp` packages that the
    communication-matrix code relies on, written out as functions over
    `seq<char>` so that their behaviour can be reasoned about. */
module Text {
  import opened Wrappers

  // ---------------------------------------------------------------------------
  // Substrings (strings.Contains, strings.HasPrefix, strings.CutPrefix)
  // ---------------------------------------------------------------------------

  predicate IsPrefix(p: string, s: string) {
    |p| <= |s| && s[..|p|] == p
  }

  /** `sub` occurs in `s` starting at index `i`. */
  predicate OccursAt(s: string, sub: string, i: int) {
    0 <= i && i + |sub| <= |s| && s[i..i + |sub|] == sub
  }

  /** strings.Contains */
  predicate Contains(s: string, sub: string) {
    exists i | 0 <= i <= |s| :: OccursAt(s, sub, i)
  }

  // ---------------------------------------------------------------------------
  // strings.Join, strings.Split with a one-character separator
  // ---------------------------------------------------------------------------

  function Join(parts: seq<string>, sep: string): string {
    if |parts| == 0 then ""
    else if |parts| == 1 then parts[0]
    else parts[0] + sep + Join(parts[1..], sep)
  }

  /** strings.Split(s, string(c)): the pieces between the occurrences of `c`;
      an empty `s` gives one empty piece. */
  function Split(s: string, c: char): (parts: seq<string>)
    ensures |parts| >= 1
    decreases |s|
  {
    if s == [] then [""]
    else
      var rest := Split(s[1..], c);
      if s[0] == c then [""] + rest
      else [[s[0]] + rest[0]] + rest[1..]
  }

  /** Joining the pieces of a split with the separator gives the input back. */
  lemma {:induction false} JoinSplit(s: string, c: char)
    ensures Join(Split(s, c), [c]) == s
    decreases |s|
  {
    if s != [] {
      var rest := Split(s[1..], c);
      JoinSplit(s[1..], c);
      if s[0] == c {
        assert ([""] + rest)[1..] == rest;
      } else if |rest| >= 2 {
        var parts := [[s[0]] + rest[0]] + rest[1..];
        assert parts[1..] == rest[1..];
        assert Join(rest, [c]) == rest[0] + [c] + Join(rest[1..], [c]);
        assert s == [s[0]] + s[1..];
      } else {
        assert s == [s[0]] + s[1..];
      }
    }
  }

  /** No piece holds the separator. */
  lemma {:induction false} SplitPiecesFree(s: string, c: char)
    ensures forall k | 0 <= k < |Split(s, c)| :: c !in Split(s, c)[k]
    decreases |s|
  {
    if s != [] {
      SplitPiecesFree(s[1..], c);
    }
  }

  /** A text without the separator is a single piece. */
  lemma {:induction false} SplitNone(s: string, c: char)
    requires c !in s
    ensures Split(s, c) == [s]
    decreases |s|
  {
    if s != [] {
      assert c !in s[1..];
      SplitNone(s[1..], c);
      assert s == [s[0]] + s[1..];
    }
  }

  /** Splitting is a homomorphism across one separator. */
  lemma {:induction false} SplitAround(x: string, y: string, c: char)
    ensures Split(x + [c] + y, c) == Split(x, c) + Split(y, c)
    decreases |x|
  {
    if x == [] {
      assert x + [c] + y == [c] + y;
      SplitCons(c, y, c);
    } else {
      var a, rest := x[0], x[1..];
      assert x == [a] + rest;
      assert x + [c] + y == [a] + (rest + [c] + y);
      SplitAround(rest, y, c);
      SplitAroundStep(a, rest, y, c);
    }
  }

  lemma SplitAroundStep(a: char, rest: string, y: string, c: char)
    requires Split(rest + [c] + y, c) == Split(rest, c) + Split(y, c)
    ensures Split([a] + (rest + [c] + y), c) == Split([a] + rest, c) + Split(y, c)
  {
    var t := rest + [c] + y;
    var pt, px, py := Split(t, c), Split(rest, c), Split(y, c);
    SplitCons(a, t, c);
    SplitCons(a, rest, c);
    if a == c {
      SepFirst(px, py);
    } else {
      ExtendFirst(a, px, py);
    }
  }

  lemma SepFirst(px: seq<string>, py: seq<string>)
    ensures [""] + (px + py) == ([""] + px) + py
  {
  }

  /** One step of Split: the first character either ends the first piece or
      joins it. */
  lemma SplitCons(a: char, t: string, c: char)
    ensures Split([a] + t, c) ==
              if a == c then [""] + Split(t, c) else [[a] + Split(t, c)[0]] + Split(t, c)[1..]
  {
    assert ([a] + t)[1..] == t;
  }

  lemma ExtendFirst(a: char, px: seq<string>, py: seq<string>)
    requires |px| >= 1
    ensures [[a] + (px + py)[0]] + (px + py)[1..] == ([[a] + px[0]] + px[1..]) + py
  {
    assert (px + py)[0] == px[0];
    assert (px + py)[1..] == px[1..] + py;
  }

  /** Splitting a join of separator-free pieces gives the pieces back. */
  lemma {:induction false} SplitJoin(parts: seq<string>, c: char)
    requires |parts| >= 1
    requires forall k :: 0 <= k < |parts| ==> c !in parts[k]
    ensures Split(Join(parts, [c]), c) == parts
    decreases |parts|
  {
    if |parts| == 1 {
      SplitNone(parts[0], c);
    } else {
      var rest := Join(parts[1..], [c]);
      SplitJoin(parts[1..], c);
      SplitAround(parts[0], rest, c);
      assert Join(parts, [c]) == parts[0] + [c] + rest;
      SplitNone(parts[0], c);
      assert parts == [parts[0]] + parts[1..];
    }
  }

  /** The text a strings.Builder holds after writing each line followed by a
      newline. */
  function Lines(ls: seq<string>): string {
    if ls == [] then "" else Lines(ls[..|ls| - 1]) + ls[|ls| - 1] + "\n"
  }

  lemma {:induction false} SplitLinesThen(ls: seq<string>, t: string)
    requires forall k :: 0 <= k < |ls| ==> '\n' !in ls[k]
    requires '\n' !in t
    ensures Split(Lines(ls) + t, '\n') == ls + [t]
    decreases |ls|
  {
    if ls != [] {
      var init, last := ls[..|ls| - 1], ls[|ls| - 1];
      var x := Lines(init) + last;
      assert Lines(ls) + t == x + ['\n'] + t;
      SplitAround(x, t, '\n');
      assert forall k :: 0 <= k < |init| ==> init[k] == ls[k];
      assert '\n' !in last;
      SplitLinesThen(init, last);
      SplitNone(t, '\n');
      assert Split(Lines(ls) + t, '\n') == (init + [last]) + [t];
      assert ls == init + [last];
    } else {
      assert Lines(ls) + t == t;
      SplitNone(t, '\n');
    }
  }

  lemma LinesSnoc(ls: seq<string>, x: string)
    ensures Lines(ls + [x]) == Lines(ls) + (x + "\n")
  {
    assert (ls + [x])[..|ls|] == ls;
  }

  lemma {:induction false} JoinFree(parts: seq<string>, sep: string, c: char)
    requires c !in sep && forall j | 0 <= j < |parts| :: c !in parts[j]
    ensures c !in Join(parts, sep)
    decreases |parts|
  {
    if |parts| > 1 {
      JoinFree(parts[1..], sep, c);
    }
  }

  /** Splitting newline-terminated lines at '\n' gives the lines back, plus the
      empty text after the last newline. */
  lemma SplitLines(ls: seq<string>)
    requires forall k :: 0 <= k < |ls| ==> '\n' !in ls[k]
    ensures Split(Lines(ls), '\n') == ls + [""]
  {
    SplitLinesThen(ls, "");
    assert Lines(ls) + "" == Lines(ls);
  }

  /** Joining around a piece that itself holds the separator is the same as
      joining its two halves as separate pieces. */
  lemma {:induction false} JoinSplice(pre: seq<string>, x: string, y: string, post: seq<string>, sep: string)
    ensures Join(pre + [x + sep + y] + post, sep) == Join(pre + [x, y] + post, sep)
    decreases |pre|
  {
    if pre == [] {
      assert pre + [x + sep + y] + post == [x + sep + y] + post;
      assert pre + [x, y] + post == [x, y] + post;
      if post == [] {
        assert Join([x, y], sep) == x + sep + Join([y], sep);
      } else {
        assert ([x, y] + post)[1..] == [y] + post;
        assert ([x + sep + y] + post)[1..] == post;
        assert Join([y] + post, sep) == y + sep + Join(post, sep);
      }
    } else {
      JoinSplice(pre[1..], x, y, post, sep);
      assert (pre + [x + sep + y] + post)[1..] == pre[1..] + [x + sep + y] + post;
      assert (pre + [x, y] + post)[1..] == pre[1..] + [x, y] + post;
    }
  }

  /** Go's int32(x): the value wrapped into the signed 32-bit range. */
  function ToInt32(x: int): (r: int)
    ensures MinInt32 <= r <= MaxInt32
    ensures (r - x) % 0x1_0000_0000 == 0
    ensures MinInt32 <= x <= MaxInt32 ==> r == x
  {
    (x - MinInt32) % 0x1_0000_0000 + MinInt32
  }

  // ---------------------------------------------------------------------------
  // strings.Fields and strings.LastIndex
  // ---------------------------------------------------------------------------

  /** unicode.IsSpace, which strings.Fields uses to separate fields. */
  predicate IsSpace(ch: char) {
    ch == ' ' || ch == '\t' || ch == '\n' || ch == '\r' || ch == '\U{000B}' || ch == '\U{000C}'
    || ch == '\U{0085}' || ch == '\U{00A0}' || ch == '\U{1680}'
    || ('\U{2000}' <= ch <= '\U{200A}')
    || ch == '\U{2028}' || ch == '\U{2029}' || ch == '\U{202F}' || ch == '\U{205F}' || ch == '\U{3000}'
  }

  predicate NoSpace(s: string) {
    forall k :: 0 <= k < |s| ==> !IsSpace(s[k])
  }

  function WordLength(s: string): (n: nat)
    ensures n <= |s|
    ensures NoSpace(s[..n])
    ensures n < |s| ==> IsSpace(s[n])
  {
    if s == [] || IsSpace(s[0]) then 0
    else
      var n := 1 + WordLength(s[1..]);
      assert s[..n] == [s[0]] + s[1..][..n - 1];
      n
  }

  /** strings.Fields: the maximal runs of non-space characters, in order. */
  function Fields(s: string): (fs: seq<string>)
    ensures forall k :: 0 <= k < |fs| ==> |fs[k]| > 0 && NoSpace(fs[k])
    decreases |s|
  {
    if s == [] then []
    else if IsSpace(s[0]) then Fields(s[1..])
    else
      var n := WordLength(s);
      [s[..n]] + Fields(s[n..])
  }

  /** A run of `m` non-space characters followed by the end or by a space is
      the word WordLength measures. */
  lemma WordLengthExact(s: string, m: nat)
    requires m <= |s| && NoSpace(s[..m]) && (m < |s| ==> IsSpace(s[m]))
    ensures WordLength(s) == m
  {
    var n := WordLength(s);
    NoSpacePrefix(s, n);
    NoSpacePrefix(s, m);
  }

  lemma NoSpacePrefix(s: string, n: nat)
    requires n <= |s| && NoSpace(s[..n])
    ensures forall k | 0 <= k < n :: !IsSpace(s[k])
  {
    assert forall k | 0 <= k < n :: s[..n][k] == s[k];
  }

  /** A single word is its own only field. */
  lemma FieldsOfWord(w: string)
    requires |w| > 0 && NoSpace(w)
    ensures Fields(w) == [w]
  {
    assert w[..|w|] == w;
    WordLengthExact(w, |w|);
    assert w[|w|..] == [];
  }

  /** A space separates fields: the fields of `a`, a space, then `b` are the
      fields of `a` followed by those of `b`. With FieldsOfWord and
      `Fields("") == []` this determines Fields on every string. */
  lemma {:induction false} FieldsAtSpace(a: string, c: char, b: string)
    requires IsSpace(c)
    ensures Fields(a + [c] + b) == Fields(a) + Fields(b)
    decreases |a|
  {
    var s := a + [c] + b;
    if a == [] {
      assert s == [c] + b && s[1..] == b;
    } else if IsSpace(a[0]) {
      assert s[0] == a[0] && s[1..] == a[1..] + [c] + b;
      FieldsAtSpace(a[1..], c, b);
    } else {
      var m := WordLength(a);
      assert s[..m] == a[..m];
      assert m < |a| ==> s[m] == a[m];
      assert m == |a| ==> s[m] == c;
      WordLengthExact(s, m);
      assert s[m..] == a[m..] + [c] + b;
      FieldsAtSpace(a[m..], c, b);
    }
  }

  /** `s[strings.LastIndex(s, string(c)) + 1:]`: the text after the last `c`,
      or all of `s` when `c` does not occur (LastIndex gives -1). The result is
      the longest suffix of `s` free of `c`. */
  function AfterLast(s: string, c: char): (r: string)
    ensures |r| <= |s| && s[|s| - |r|..] == r
    ensures c !in r
    ensures |r| < |s| ==> s[|s| - |r| - 1] == c
    decreases |s|
  {
    if s == [] then []
    else if s[|s| - 1] == c then []
    else
      var r0 := AfterLast(s[..|s| - 1], c);
      SuffixSnoc(s, r0);
      r0 + [s[|s| - 1]]
  }

  /** A suffix of all but the last character, extended by that character, is
      a suffix of the whole text. */
  lemma SuffixSnoc(s: string, r0: string)
    requires s != [] && |r0| <= |s| - 1 && s[..|s| - 1][|s| - 1 - |r0|..] == r0
    ensures s[|s| - |r0| - 1..] == r0 + [s[|s| - 1]]
    ensures |r0| < |s| - 1 ==> s[|s| - |r0| - 2] == s[..|s| - 1][|s| - 1 - |r0| - 1]
  {
    assert s == s[..|s| - 1] + [s[|s| - 1]];
  }

  // ---------------------------------------------------------------------------
  // Decimal numbers: fmt's %d and strconv.ParseInt(s, 10, 32)
  // ---------------------------------------------------------------------------

  predicate IsDigit(ch: char) {
    '0' <= ch <= '9'
  }

  predicate AllDigits(s: string) {
    forall k :: 0 <= k < |s| ==> IsDigit(s[k])
  }

  function DigitChar(d: nat): (ch: char)
    requires d < 10
    ensures IsDigit(ch)
  {
    ('0' as int + d) as char
  }

  function DigitValue(ch: char): (d: nat)
    requires IsDigit(ch)
    ensures d < 10
  {
    ch as int - '0' as int
  }

  /** The decimal digits of `n`, most significant first, without leading zeros. */
  function NatToString(n: nat): (s: string)
    ensures |s| > 0 && AllDigits(s)
    ensures s[0] == '0' <==> n == 0
    decreases n
  {
    if n < 10 then [DigitChar(n)]
    else NatToString(n / 10) + [DigitChar(n % 10)]
  }

  /** fmt's %d of a signed integer. */
  function IntToString(i: int): string {
    if i < 0 then "-" + NatToString(-i) else NatToString(i)
  }

  function DigitsValue(s: string): nat
    requires AllDigits(s)
  {
    if s == [] then 0 else DigitsValue(s[..|s| - 1]) * 10 + DigitValue(s[|s| - 1])
  }

  /** An optionally signed run of one or more decimal digits, of any size. */
  function ParseDecimal(s: string): Option<int> {
    if s == [] then None
    else
      var digits := if s[0] == '-' || s[0] == '+' then s[1..] else s;
      if digits == [] || !AllDigits(digits) then None
      else
        var v: int := DigitsValue(digits);
        if s[0] == '-' then Some(-v) else Some(v)
  }

  const MinInt32: int := -0x8000_0000
  const MaxInt32: int := 0x7fff_ffff

  /** strconv.ParseInt(s, 10, 32): a base-10 integer with an optional sign that
      fits in 32 bits; anything else is an error. */
  function ParseInt32(s: string): (r: Option<int>)
    ensures r.Some? <==> ParseDecimal(s).Some? && MinInt32 <= ParseDecimal(s).value <= MaxInt32
    ensures r.Some? ==> r == ParseDecimal(s)
  {
    match ParseDecimal(s)
    case Some(v) => if MinInt32 <= v <= MaxInt32 then Some(v) else None
    case None => None
  }

  lemma {:induction false} DigitsOfNat(n: nat)
    ensures DigitsValue(NatToString(n)) == n
    decreases n
  {
    if n >= 10 {
      DigitsOfNat(n / 10);
      var s := NatToString(n);
      assert s[..|s| - 1] == NatToString(n / 10);
      assert DigitValue(DigitChar(n % 10)) == n % 10;
    } else {
      assert DigitValue(DigitChar(n)) == n;
    }
  }

  /** Reading back what %d printed gives the number. */
  lemma ParseIntToString(i: int)
    ensures ParseDecimal(IntToString(i)) == Some(i)
  {
    var s := IntToString(i);
    if i < 0 {
      DigitsOfNat(-i);
      assert s[1..] == NatToString(-i);
    } else {
      DigitsOfNat(i);
      assert IsDigit(s[0]);
    }
  }

  lemma IntToStringInjective(a: int, b: int)
    requires IntToString(a) == IntToString(b)
    ensures a == b
  {
    ParseIntToString(a);
    ParseIntToString(b);
  }

  /** %d never prints a '-' except as the leading sign. */
  lemma IntToStringDashes(i: int)
    ensures forall k :: 0 < k < |IntToString(i)| ==> IntToString(i)[k] != '-'
    ensures |IntToString(i)| > 0
  {
    var s := IntToString(i);
    if i < 0 {
      assert s[1..] == NatToString(-i);
      forall k | 0 < k < |s| ensures s[k] != '-' {
        assert s[k] == s[1..][k - 1];
      }
    }
  }

  /** %d prints only digits and a leading '-'. */
  lemma IntToStringChars(i: int, c: char)
    requires c != '-' && !IsDigit(c)
    ensures c !in IntToString(i)
  {
    var s := IntToString(i);
    if i < 0 {
      assert s == "-" + NatToString(-i);
      assert forall k | 1 <= k < |s| :: s[k] == NatToString(-i)[k - 1];
    }
  }

  /** A 32-bit value printed by %d parses back to itself. */
  lemma ParseInt32RoundTrip(i: int)
    requires MinInt32 <= i <= MaxInt32
    ensures ParseInt32(IntToString(i)) == Some(i)
  {
    ParseIntToString(i);
  }

  // ---------------------------------------------------------------------------
  // Separator arithmetic: recovering the parts of `a + sep + b`
  // ---------------------------------------------------------------------------

  lemma SplitAtFirst(a: string, b: string, c: string, d: string, sep: char)
    requires sep !in a && sep !in c
    requires a + [sep] + b == c + [sep] + d
    ensures a == c && b == d
  {
    var s := a + [sep] + b;
    assert forall k | 0 <= k < |a| :: s[k] == a[k];
    assert forall k | 0 <= k < |c| :: s[k] == c[k];
    assert s[|a|] == sep && s[|c|] == sep;
    assert |a| == |c|;
    assert a == s[..|a|] && c == s[..|c|];
    assert b == s[|a| + 1..] && d == s[|c| + 1..];
  }

  lemma SplitAtLast(a: string, b: string, c: string, d: string, sep: char)
    requires sep !in b && sep !in d
    requires a + [sep] + b == c + [sep] + d
    ensures a == c && b == d
  {
    var s := a + [sep] + b;
    var n := |s|;
    assert forall k | |a| < k < n :: s[k] == b[k - |a| - 1];
    assert forall k | |c| < k < n :: s[k] == d[k - |c| - 1];
    assert s[|a|] == sep && s[|c|] == sep;
    assert |a| == |c|;
    assert a == s[..|a|] && c == s[..|c|];
    assert b == s[|a| + 1..] && d == s[|c| + 1..];
  }

  // ---------------------------------------------------------------------------
  // cmp.Compare
  // ---------------------------------------------------------------------------

  /** cmp.Compare on strings: lexicographic order of the characters (for
      well-formed text, the same order as Go's comparison of UTF-8 bytes). */
  function CompareStrings(a: string, b: string): (r: int)
    ensures -1 <= r <= 1
    ensures r == 0 <==> a == b
    decreases |a|
  {
    if a == [] && b == [] then 0
    else if a == [] then -1
    else if b == [] then 1
    else if a[0] < b[0] then -1
    else if a[0] > b[0] then 1
    else
      var r := CompareStrings(a[1..], b[1..]);
      assert r == 0 ==> a == [a[0]] + a[1..] && b == [b[0]] + b[1..];
      r
  }

  lemma {:induction false} CompareStringsAntisymmetric(a: string, b: string)
    ensures CompareStrings(b, a) == -CompareStrings(a, b)
    decreases |a|
  {
    if a != [] && b != [] && a[0] == b[0] {
      CompareStringsAntisymmetric(a[1..], b[1..]);
    }
  }

  lemma {:induction false} CompareStringsTransitive(a: string, b: string, c: string)
    requires CompareStrings(a, b) < 0 && CompareStrings(b, c) < 0
    ensures CompareStrings(a, c) < 0
    decreases |a|
  {
    if a != [] && b != [] && c != [] && a[0] == b[0] && b[0] == c[0] {
      CompareStringsTransitive(a[1..], b[1..], c[1..]);
    }
  }

  /** cmp.Compare on integers. */
  function CompareInts(a: int, b: int): int {
    if a < b then -1 else if a > b then 1 else 0
  }
}
