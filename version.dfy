/**
 * The version model of pacm/update.go: dotted version strings compared
 * component by component as integers (`compareVersions`), version
 * constraints (`checkVersion`), and the version embedded in an archive
 * name (`getVersionFromArchiveName`).
 */
module Version {
  import opened Wrappers
  import opened GoLib

  /**
   * The integer value of one dotted component: empty, unparseable and
   * out-of-range components count as 0. `Atoi` accepts a sign, so a
   * component may be negative.
   */
  function ParseComponent(part: string): (n: int)
    ensures part == [] ==> n == 0
    ensures Atoi(part).None? ==> n == 0
    ensures Atoi(part).Some? ==> n == Atoi(part).value
  {
    if part == [] then 0
    else
      match Atoi(part)
      case Some(n) => n
      case None => 0
  }

  /**
   * Component `i` of a split version as `compareVersions` reads it: 0 past
   * the end, for an empty part and for a part `Atoi` rejects.
   */
  function PartValue(parts: seq<string>, i: nat): (n: int)
    ensures i >= |parts| ==> n == 0
    ensures i < |parts| ==> n == ParseComponent(parts[i])
  {
    if i < |parts| && parts[i] != "" then Atoi(parts[i]).GetOr(0) else 0
  }

  /** The values of the split parts. */
  function Values(parts: seq<string>): (cs: seq<int>)
    ensures |cs| == |parts|
    ensures forall i :: 0 <= i < |cs| ==> cs[i] == PartValue(parts, i)
  {
    seq(|parts|, i requires 0 <= i < |parts| => PartValue(parts, i))
  }

  /** The components of a version, one per '.'-separated part. */
  function Components(v: string): (cs: seq<int>)
    ensures |cs| == |Split(v, '.')| >= 1
    ensures forall i :: 0 <= i < |cs| ==> cs[i] == ParseComponent(Split(v, '.')[i])
  {
    Values(Split(v, '.'))
  }

  /** Component `i`, with missing trailing components read as 0. */
  function At(cs: seq<int>, i: nat): int {
    if i < |cs| then cs[i] else 0
  }

  function Max(a: nat, b: nat): nat {
    if a < b then b else a
  }

  /** Lexicographic comparison of the zero-padded components at `i`..`n`-1. */
  function LexFrom(a: seq<int>, b: seq<int>, i: nat, n: nat): (r: int)
    decreases n - i
    ensures r == -1 || r == 0 || r == 1
  {
    if i >= n then 0
    else if At(a, i) < At(b, i) then -1
    else if At(a, i) > At(b, i) then 1
    else LexFrom(a, b, i + 1, n)
  }

  /**
   * The order of `compareVersions`: -1, 0 or 1 as `v1` is below, equal to
   * or above `v2`, comparing components numerically and padding the
   * shorter version with zeros.
   */
  function Compare(v1: string, v2: string): (r: int)
    ensures r == -1 || r == 0 || r == 1
  {
    var a, b := Components(v1), Components(v2);
    LexFrom(a, b, 0, Max(|a|, |b|))
  }

  /** `compareVersions` (pacm/update.go:220-256): the loop over the components. */
  method CompareVersions(v1: string, v2: string) returns (r: int)
    ensures r == Compare(v1, v2)
  {
    var v1Parts := Split(v1, '.');
    var v2Parts := Split(v2, '.');
    ghost var a, b := Values(v1Parts), Values(v2Parts);
    var maxLen := |v1Parts|;
    if |v2Parts| > maxLen {
      maxLen := |v2Parts|;
    }
    ghost var expected := LexFrom(a, b, 0, maxLen);
    assert expected == Compare(v1, v2);
    var i := 0;
    while i < maxLen
      invariant 0 <= i <= maxLen
      invariant LexFrom(a, b, i, maxLen) == expected
    {
      var p1 := ReadComponent(v1Parts, i);
      var p2 := ReadComponent(v2Parts, i);
      ValuesAt(v1Parts, i);
      ValuesAt(v2Parts, i);
      LexFromStep(a, b, i, maxLen);
      if p1 < p2 {
        return -1;
      }
      if p1 > p2 {
        return 1;
      }
      i := i + 1;
    }
    return 0;
  }

  /** One step of the comparison: a difference at `i` decides, equality passes on. */
  lemma LexFromStep(a: seq<int>, b: seq<int>, i: nat, n: nat)
    requires i < n
    ensures At(a, i) < At(b, i) ==> LexFrom(a, b, i, n) == -1
    ensures At(a, i) > At(b, i) ==> LexFrom(a, b, i, n) == 1
    ensures At(a, i) == At(b, i) ==> LexFrom(a, b, i, n) == LexFrom(a, b, i + 1, n)
  {
  }

  lemma ValuesAt(parts: seq<string>, i: nat)
    ensures At(Values(parts), i) == PartValue(parts, i)
  {
  }

  /** The conversion of one part inside the loop of `compareVersions`. */
  method ReadComponent(parts: seq<string>, i: nat) returns (p: int)
    ensures p == PartValue(parts, i)
  {
    p := 0;
    if i < |parts| && parts[i] != "" {
      // a failed conversion leaves 0
      p := Atoi(parts[i]).GetOr(0);
    }
  }

  /** The comparison is 0 exactly when the padded components agree on `i`..`n`-1. */
  lemma {:induction false} LexFromZeroIff(a: seq<int>, b: seq<int>, i: nat, n: nat)
    decreases n - i
    ensures LexFrom(a, b, i, n) == 0 <==> forall j :: i <= j < n ==> At(a, j) == At(b, j)
  {
    if i < n && At(a, i) == At(b, i) {
      LexFromZeroIff(a, b, i + 1, n);
    }
  }

  lemma {:induction false} LexFromAntisymmetric(a: seq<int>, b: seq<int>, i: nat, n: nat)
    decreases n - i
    ensures LexFrom(a, b, i, n) == -LexFrom(b, a, i, n)
  {
    if i < n && At(a, i) == At(b, i) {
      LexFromAntisymmetric(a, b, i + 1, n);
    }
  }

  lemma {:induction false} LexFromTransitive(a: seq<int>, b: seq<int>, c: seq<int>, i: nat, n: nat)
    decreases n - i
    requires LexFrom(a, b, i, n) <= 0 && LexFrom(b, c, i, n) <= 0
    ensures LexFrom(a, c, i, n) <= 0
    ensures LexFrom(a, b, i, n) < 0 || LexFrom(b, c, i, n) < 0 ==> LexFrom(a, c, i, n) < 0
  {
    if i < n && At(a, i) == At(b, i) == At(c, i) {
      LexFromTransitive(a, b, c, i + 1, n);
    }
  }

  /** Past the longer operand every padded component is 0 on both sides. */
  lemma LexFromPadding(a: seq<int>, b: seq<int>, n: nat, m: nat)
    requires Max(|a|, |b|) <= n && Max(|a|, |b|) <= m
    ensures LexFrom(a, b, 0, n) == LexFrom(a, b, 0, m)
  {
    LexFromZeroIff(a, b, 0, n);
    LexFromZeroIff(a, b, 0, m);
    if LexFrom(a, b, 0, n) == 0 {
      assert forall j :: 0 <= j < m ==> At(a, j) == At(b, j) by {
        forall j | 0 <= j < m ensures At(a, j) == At(b, j) {
          if j < n {
            assert At(a, j) == At(b, j);
          }
        }
      }
    } else {
      var k := FirstDifference(a, b, 0, n);
      FirstDifferenceDecides(a, b, 0, m, k);
    }
  }

  /** The first index at or after `i` where the padded components differ. */
  function FirstDifference(a: seq<int>, b: seq<int>, i: nat, n: nat): (k: nat)
    decreases n - i
    requires LexFrom(a, b, i, n) != 0
    ensures i <= k < n && At(a, k) != At(b, k)
    ensures forall j :: i <= j < k ==> At(a, j) == At(b, j)
    ensures LexFrom(a, b, i, n) == (if At(a, k) < At(b, k) then -1 else 1)
  {
    if At(a, i) != At(b, i) then i else FirstDifference(a, b, i + 1, n)
  }

  lemma {:induction false} FirstDifferenceDecides(a: seq<int>, b: seq<int>, i: nat, m: nat, k: nat)
    decreases k - i
    requires i <= k < m && At(a, k) != At(b, k)
    requires forall j :: i <= j < k ==> At(a, j) == At(b, j)
    ensures LexFrom(a, b, i, m) == (if At(a, k) < At(b, k) then -1 else 1)
  {
    if i < k {
      FirstDifferenceDecides(a, b, i + 1, m, k);
    }
  }

  /** Every version equals itself. */
  lemma CompareReflexive(v: string)
    ensures Compare(v, v) == 0
  {
    var a := Components(v);
    LexFromZeroIff(a, a, 0, Max(|a|, |a|));
  }

  /** Swapping the operands negates the result. */
  lemma CompareAntisymmetric(v1: string, v2: string)
    ensures Compare(v1, v2) == -Compare(v2, v1)
  {
    var a, b := Components(v1), Components(v2);
    assert Max(|a|, |b|) == Max(|b|, |a|);
    LexFromAntisymmetric(a, b, 0, Max(|a|, |b|));
  }

  /** The order is transitive, and strictly so when either step is strict. */
  lemma CompareTransitive(v1: string, v2: string, v3: string)
    requires Compare(v1, v2) <= 0 && Compare(v2, v3) <= 0
    ensures Compare(v1, v3) <= 0
    ensures Compare(v1, v2) < 0 || Compare(v2, v3) < 0 ==> Compare(v1, v3) < 0
  {
    var a, b, c := Components(v1), Components(v2), Components(v3);
    var n := Max(Max(|a|, |b|), |c|);
    LexFromPadding(a, b, Max(|a|, |b|), n);
    LexFromPadding(b, c, Max(|b|, |c|), n);
    LexFromPadding(a, c, Max(|a|, |c|), n);
    LexFromTransitive(a, b, c, 0, n);
  }

  /**
   * Two versions are equal exactly when their zero-padded components agree
   * everywhere, so "1" == "1.0" == "1.x" and "1.10" == "1.010".
   */
  lemma CompareZeroIff(v1: string, v2: string)
    ensures Compare(v1, v2) == 0 <==>
      forall j: nat :: At(Components(v1), j) == At(Components(v2), j)
  {
    var a, b := Components(v1), Components(v2);
    LexFromZeroIff(a, b, 0, Max(|a|, |b|));
    if Compare(v1, v2) == 0 {
      forall j: nat ensures At(a, j) == At(b, j) {
        if j >= Max(|a|, |b|) {
          assert At(a, j) == 0 == At(b, j);
        }
      }
    }
  }

  /**
   * Appending a component that reads as 0 ("", "0", "x", "-0", ...) does
   * not change a version's place in the order.
   */
  lemma TrailingZeroComponent(v: string, w: string)
    requires '.' !in w && ParseComponent(w) == 0
    ensures Compare(v, v + "." + w) == 0
  {
    SplitAppend(v, w, '.');
    var a, b := Components(v), Components(v + "." + w);
    assert b == a + [0];
    forall j: nat ensures At(a, j) == At(b, j) {
    }
    CompareZeroIff(v, v + "." + w);
  }

  /** Components are read as numbers, so leading zeros do not matter. */
  lemma LeadingZeroComponent(d: string)
    requires d != [] && AllDigits(d)
    ensures ParseComponent("0" + d) == ParseComponent(d)
  {
    DigitsValueLeadingZero(d);
  }

  /** Versions made of one all-digit component compare by numeric value. */
  lemma NumericComponents(d1: string, d2: string)
    requires d1 != [] && AllDigits(d1) && DigitsValue(d1) <= MaxInt64
    requires d2 != [] && AllDigits(d2) && DigitsValue(d2) <= MaxInt64
    ensures Compare(d1, d2) < 0 <==> DigitsValue(d1) < DigitsValue(d2)
  {
    assert Components(d1) == [DigitsValue(d1)];
    assert Components(d2) == [DigitsValue(d2)];
  }

  /** The value of a one- or two-digit component. */
  lemma SmallComponent(d: string)
    requires 1 <= |d| <= 2 && AllDigits(d)
    ensures ParseComponent(d) == DigitsValue(d) <= 99
  {
    if |d| == 2 {
      assert d[..1] == [d[0]];
      assert [d[0]][..0] == [];
    } else {
      assert d[..0] == [];
    }
  }

  /** A version with two components. */
  lemma TwoComponents(x: string, y: string)
    requires '.' !in x && '.' !in y
    ensures Components(x + "." + y) == [ParseComponent(x), ParseComponent(y)]
  {
    SplitAppend(x, y, '.');
  }

  /**
   * Two-component versions that agree on the first component are ordered
   * by the numeric value of the second.
   */
  lemma SecondComponentDecides(x: string, y1: string, y2: string)
    requires '.' !in x && '.' !in y1 && '.' !in y2
    requires ParseComponent(y1) < ParseComponent(y2)
    ensures Compare(x + "." + y1, x + "." + y2) == -1
  {
    TwoComponents(x, y1);
    TwoComponents(x, y2);
    var a, b := Components(x + "." + y1), Components(x + "." + y2);
    var k := 1;
    assert LexFrom(a, b, k, 2) == -1;
  }

  /** "1.9" sorts below "1.10": the order is numeric, not textual. */
  lemma NineBelowTen()
    ensures Compare("1.9", "1.10") == -1
  {
    SmallComponent("9");
    SmallComponent("10");
    assert DigitsValue("10") == 10 by {
      assert "10"[..1] == "1";
    }
    SecondComponentDecides("1", "9", "10");
    assert "1" + "." + "9" == "1.9";
    assert "1" + "." + "10" == "1.10";
  }

  /**
   * `strconv.Atoi` accepts a sign, so a component can be negative: "-1"
   * sorts below "0".
   */
  lemma NegativeComponent()
    ensures Compare("-1", "0") == -1
  {
    assert "-1"[1..] == "1";
    assert DigitsValue("1") == 1 by {
      assert "1"[..0] == [];
    }
    assert ParseComponent("-1") == -1;
    assert ParseComponent("0") == 0 by {
      assert DigitsValue("0") == 0 by {
        assert "0"[..0] == [];
      }
    }
    var a, b := Components("-1"), Components("0");
    assert a == [-1] && b == [0];
    assert LexFrom(a, b, 0, 1) == -1;
  }

  // ---------------------------------------------------------------------
  // Archive names

  const ArchiveSuffix: string := ".tar.gz"

  datatype VersionError = NoVersion(archiveName: string)

  /**
   * `getVersionFromArchiveName` (pacm/update.go:258-267): the base name with
   * `<packName>-` and `.tar.gz` trimmed off; an error only when nothing is
   * left. A missing prefix or suffix is not an error.
   */
  function VersionFromArchiveName(archiveName: string, packName: string): (r: Result<string, VersionError>)
    ensures r.Ok? ==> r.value != []
    ensures r.Err? ==> r.error == NoVersion(Base(archiveName))
  {
    var name := Base(archiveName);
    var version := TrimSuffix(TrimPrefix(name, packName + "-"), ArchiveSuffix);
    if version == [] then Err(NoVersion(name)) else Ok(version)
  }

  /** The version of a path is the version of its base name. */
  lemma VersionOfBase(archiveName: string, packName: string)
    ensures VersionFromArchiveName(Base(archiveName), packName) == VersionFromArchiveName(archiveName, packName)
  {
    BaseIdempotent(archiveName);
  }

  /**
   * Round trip with the archive naming of pacm/create..go:107: the version
   * that produced `<dir>/<name>-<ver>.tar.gz` is recovered from it.
   */
  lemma ArchiveNameRoundTrip(dir: string, name: string, ver: string)
    requires ver != [] && '/' !in name && '/' !in ver
    ensures VersionFromArchiveName(dir + "/" + name + "-" + ver + ArchiveSuffix, name) == Ok(ver)
  {
    var base := name + "-" + ver + ArchiveSuffix;
    assert dir + "/" + name + "-" + ver + ArchiveSuffix == dir + "/" + base;
    NoSlashInArchiveName(name, ver);
    BaseOfJoin(dir, base);
    TrimArchiveName(name, ver);
  }

  lemma NoSlashInArchiveName(name: string, ver: string)
    requires '/' !in name && '/' !in ver
    ensures '/' !in name + "-" + ver + ArchiveSuffix
  {
    assert '/' !in "-" && '/' !in ArchiveSuffix;
  }

  lemma TrimArchiveName(name: string, ver: string)
    ensures TrimSuffix(TrimPrefix(name + "-" + ver + ArchiveSuffix, name + "-"), ArchiveSuffix) == ver
  {
    var base := name + "-" + ver + ArchiveSuffix;
    var pre := name + "-";
    assert base == pre + (ver + ArchiveSuffix);
    assert base[..|pre|] == pre;
    var t := ver + ArchiveSuffix;
    assert TrimPrefix(base, pre) == t;
    assert t[|t| - |ArchiveSuffix|..] == ArchiveSuffix;
    assert t[..|t| - |ArchiveSuffix|] == ver;
  }

  /**
   * The only archive names without a version are `<packName>-`,
   * `<packName>-.tar.gz` and `.tar.gz` (after taking the base name).
   */
  lemma VersionErrorIff(archiveName: string, packName: string)
    ensures VersionFromArchiveName(archiveName, packName).Err? <==>
      var b := Base(archiveName);
      b == packName + "-" || b == packName + "-" + ArchiveSuffix || b == ArchiveSuffix
  {
    var b := Base(archiveName);
    var pre := packName + "-";
    var t := TrimPrefix(b, pre);
    TrimSuffixEmpty(t, ArchiveSuffix);
    assert packName + "-" + ArchiveSuffix == pre + ArchiveSuffix;
    if HasPrefix(b, pre) {
      assert b == pre + t;
      assert b[|pre| - 1] == '-';
      assert t == [] <==> b == pre;
      assert t == ArchiveSuffix <==> b == pre + ArchiveSuffix;
    } else {
      assert t == b;
      assert b != pre by {
        assert HasPrefix(pre, pre);
      }
      assert b != pre + ArchiveSuffix by {
        assert (pre + ArchiveSuffix)[..|pre|] == pre;
      }
    }
  }

  /** Trimming a suffix leaves nothing exactly when the string is empty or is the suffix. */
  lemma TrimSuffixEmpty(t: string, suffix: string)
    ensures TrimSuffix(t, suffix) == [] <==> t == [] || t == suffix
  {
    if t == suffix {
      assert t[|t| - |suffix|..] == suffix;
    }
  }

  // ---------------------------------------------------------------------
  // Constraints

  /**
   * The values the variable `op` of `checkVersion` can hold; `NoOp` is its
   * initial value "", the one that reaches the `default` branch.
   */
  datatype Op = NoOp | Ge | Le | Gt | Lt

  /**
   * The operator selection of `checkVersion` (pacm/update.go:279-294):
   * two-character operators are tried before one-character ones, and the
   * operand is the rest of the constraint.
   */
  function ConstraintOperator(required: string): (r: (Op, string))
    ensures HasPrefix(required, ">") || HasPrefix(required, "<") ==> r.0 != NoOp
    ensures r.0 == NoOp ==> r.1 == required
    ensures HasPrefix(required, ">=") ==> r == (Ge, required[2..])
    ensures HasPrefix(required, "<=") ==> r == (Le, required[2..])
    ensures HasPrefix(required, ">") && !HasPrefix(required, ">=") ==> r == (Gt, required[1..])
    ensures HasPrefix(required, "<") && !HasPrefix(required, "<=") ==> r == (Lt, required[1..])
  {
    if HasPrefix(required, ">=") then (Ge, TrimPrefix(required, ">="))
    else if HasPrefix(required, "<=") then (Le, TrimPrefix(required, "<="))
    else if HasPrefix(required, ">") then (Gt, TrimPrefix(required, ">"))
    else if HasPrefix(required, "<") then (Lt, TrimPrefix(required, "<"))
    else (NoOp, required)
  }

  /** The operator prefixes read as characters. */
  lemma PrefixCharacters(s: string)
    ensures HasPrefix(s, ">") <==> s != [] && s[0] == '>'
    ensures HasPrefix(s, "<") <==> s != [] && s[0] == '<'
    ensures HasPrefix(s, ">=") <==> |s| >= 2 && s[0] == '>' && s[1] == '='
    ensures HasPrefix(s, "<=") <==> |s| >= 2 && s[0] == '<' && s[1] == '='
  {
    if |s| >= 2 {
      assert s[..2] == [s[0], s[1]];
    }
    if |s| >= 1 {
      assert s[..1] == [s[0]];
    }
  }

  /**
   * `checkVersion` (pacm/update.go:269-308). An empty constraint accepts
   * everything; a constraint not starting with '>' or '<' is compared as
   * text; otherwise the actual version is compared with the operand.
   */
  function CheckVersion(required: string, actual: string): (r: bool)
    ensures required == "" ==> r
    ensures required != "" && !HasPrefix(required, ">") && !HasPrefix(required, "<") ==>
      (r <==> required == actual)
    ensures HasPrefix(required, ">=") ==> (r <==> Compare(actual, required[2..]) >= 0)
    ensures HasPrefix(required, "<=") ==> (r <==> Compare(actual, required[2..]) <= 0)
    ensures HasPrefix(required, ">") && !HasPrefix(required, ">=") ==>
      (r <==> Compare(actual, required[1..]) > 0)
    ensures HasPrefix(required, "<") && !HasPrefix(required, "<=") ==>
      (r <==> Compare(actual, required[1..]) < 0)
  {
    PrefixCharacters(required);
    if required == "" then true
    else if !HasPrefix(required, ">") && !HasPrefix(required, "<") then required == actual
    else
      var (op, verStr) := ConstraintOperator(required);
      match op
      case Ge => Compare(actual, verStr) >= 0
      case Le => Compare(actual, verStr) <= 0
      case Gt => Compare(actual, verStr) > 0
      case Lt => Compare(actual, verStr) < 0
      case NoOp => false  // the `default` branch; unreachable by ConstraintOperator's contract
  }

  /** `>` and `>=` constraints accept every version at or above an accepted one. */
  lemma GreaterConstraintUpwardClosed(required: string, v1: string, v2: string)
    requires HasPrefix(required, ">")
    requires CheckVersion(required, v1) && Compare(v1, v2) <= 0
    ensures CheckVersion(required, v2)
  {
    var (op, w) := ConstraintOperator(required);
    CompareAntisymmetric(v1, w);
    CompareAntisymmetric(v2, w);
    CompareTransitive(w, v1, v2);
  }

  /** `<` and `<=` constraints accept every version at or below an accepted one. */
  lemma LessConstraintDownwardClosed(required: string, v1: string, v2: string)
    requires HasPrefix(required, "<")
    requires CheckVersion(required, v1) && Compare(v2, v1) <= 0
    ensures CheckVersion(required, v2)
  {
    var (op, w) := ConstraintOperator(required);
    CompareTransitive(v2, v1, w);
  }

  /** "=" is not an operator: "=1.12" accepts only the text "=1.12". */
  lemma EqualsSignIsText(v: string, actual: string)
    ensures CheckVersion("=" + v, actual) <==> actual == "=" + v
  {
    assert ("=" + v)[0] == '=';
  }

  /** Versions with the same components compare equal. */
  lemma SameComponents(v1: string, v2: string)
    requires Components(v1) == Components(v2)
    ensures Compare(v1, v2) == 0
  {
    CompareReflexive(v1);
  }

  /** The exact branch is textual: "1.010" does not satisfy "1.10" although they compare equal. */
  lemma ExactConstraintIsTextual()
    ensures Compare("1.10", "1.010") == 0 && !CheckVersion("1.10", "1.010")
  {
    var v1, v2 := "1.10", "1.010";
    assert v1 == "1" + "." + "10";
    assert v2 == "1" + "." + "010";
    TwoComponents("1", "10");
    TwoComponents("1", "010");
    assert "010" == "0" + "10";
    LeadingZeroComponent("10");
    assert Components(v1) == Components(v2);
    SameComponents(v1, v2);
    assert !HasPrefix(v1, ">") && !HasPrefix(v1, "<") by {
      PrefixCharacters(v1);
    }
    assert v1 != v2 by {
      assert |v1| != |v2|;
    }
  }

  /** An empty actual version reads as 0, so ">1.12" rejects it. */
  lemma EmptyActualBelowPositive()
    ensures !CheckVersion(">1.12", "")
  {
    var required := ">1.12";
    assert "1.12" == "1" + "." + "12";
    TwoComponents("1", "12");
    SmallComponent("1");
    assert Components("") == [0];
    assert Components("1.12")[0] == 1;
    assert Compare("", "1.12") == -1 by {
      assert LexFrom([0], Components("1.12"), 0, 2) == -1;
    }
    PrefixCharacters(required);
    assert required[1..] == "1.12";
  }
}
