/**
 * The archive selection of `getArchiveName` (pacm/update.go:158-218): the
 * remote `ls` output is trimmed and split into lines, the lines are sorted
 * ascending by the version in their names, and a scan keeps the last line
 * whose version satisfies the constraint, stopping at the first miss after
 * a hit. The SSH session is abstracted to the outcome of the listing
 * command.
 */
module Resolver {
  import opened Wrappers
  import opened GoLib
  import opened Version
  import opened Config

  // ---------------------------------------------------------------------
  // Sorting

  /** `cmp` orders `names` ascending. */
  ghost predicate SortedBy(names: seq<string>, cmp: (string, string) -> int) {
    forall i, j {:trigger cmp(names[i], names[j])} :: 0 <= i < j < |names| ==> cmp(names[i], names[j]) <= 0
  }

  /**
   * `cmp` is a total preorder whose sign flips with its arguments, as
   * `slices.SortFunc` requires of its comparator.
   */
  ghost predicate TotalPreorder(cmp: (string, string) -> int) {
    (forall x, y :: cmp(x, y) <= 0 || cmp(y, x) <= 0) &&
    (forall x, y :: cmp(x, y) < 0 <==> cmp(y, x) > 0) &&
    (forall x, y, z :: cmp(x, y) <= 0 && cmp(y, z) <= 0 ==> cmp(x, z) <= 0)
  }

  /** Inserts `x` before the first element that `cmp` puts above it, so after its equals. */
  function Insert(x: string, s: seq<string>, cmp: (string, string) -> int): (r: seq<string>)
    ensures multiset(r) == multiset(s) + multiset{x}
  {
    if s == [] then [x]
    else if cmp(x, s[0]) < 0 then [x] + s
    else
      assert s == [s[0]] + s[1..];
      [s[0]] + Insert(x, s[1..], cmp)
  }

  /** Inserting into a sorted sequence keeps it sorted. */
  lemma {:induction false} InsertSorted(x: string, s: seq<string>, cmp: (string, string) -> int)
    requires TotalPreorder(cmp) && SortedBy(s, cmp)
    ensures SortedBy(Insert(x, s, cmp), cmp)
    decreases |s|
  {
    if s != [] {
      if cmp(x, s[0]) < 0 {
        InsertFront(x, s, cmp);
      } else {
        var rest := Insert(x, s[1..], cmp);
        assert SortedBy(s[1..], cmp) by {
          forall i, j | 0 <= i < j < |s[1..]| ensures cmp(s[1..][i], s[1..][j]) <= 0 {
            assert s[1..][i] == s[i + 1] && s[1..][j] == s[j + 1];
          }
        }
        InsertSorted(x, s[1..], cmp);
        InsertBehind(x, s, rest, cmp);
      }
    }
  }

  lemma InsertFront(x: string, s: seq<string>, cmp: (string, string) -> int)
    requires s != [] && cmp(x, s[0]) < 0
    ensures TotalPreorder(cmp) && SortedBy(s, cmp) ==> SortedBy([x] + s, cmp)
  {
    if TotalPreorder(cmp) && SortedBy(s, cmp) {
      var r := [x] + s;
      forall i, j | 0 <= i < j < |r| ensures cmp(r[i], r[j]) <= 0 {
        if i == 0 {
          if j > 1 {
            assert cmp(s[0], s[j - 1]) <= 0;
          }
        } else {
          assert cmp(s[i - 1], s[j - 1]) <= 0;
        }
      }
    }
  }

  lemma InsertBehind(x: string, s: seq<string>, rest: seq<string>, cmp: (string, string) -> int)
    requires s != [] && cmp(x, s[0]) >= 0
    requires multiset(rest) == multiset(s[1..]) + multiset{x}
    requires TotalPreorder(cmp) && SortedBy(s[1..], cmp) ==> SortedBy(rest, cmp)
    ensures TotalPreorder(cmp) && SortedBy(s, cmp) ==> SortedBy([s[0]] + rest, cmp)
  {
    if TotalPreorder(cmp) && SortedBy(s, cmp) {
      var r := [s[0]] + rest;
      forall i, j | 0 <= i < j < |r| ensures cmp(r[i], r[j]) <= 0 {
        if i == 0 {
          var y := r[j];
          assert y in multiset(rest);
          if y != x {
            assert y in multiset(s[1..]);
            var m :| 0 <= m < |s[1..]| && s[1..][m] == y;
            assert s[m + 1] == y;
          }
        } else {
          assert r[i] == rest[i - 1] && r[j] == rest[j - 1];
        }
      }
    }
  }

  /**
   * `slices.SortFunc` (pacm/update.go:186-190): a permutation of `names`
   * that `cmp` orders ascending. This insertion sort is stable: each line
   * goes after the earlier lines it compares equal to, as Go's insertion
   * sort for short slices leaves it. `AnySortSelectsGreatestHit` states
   * the selection for every ascending permutation.
   */
  function SortFunc(names: seq<string>, cmp: (string, string) -> int): (r: seq<string>)
    ensures multiset(r) == multiset(names)
  {
    if names == [] then []
    else
      assert names == names[..|names| - 1] + [names[|names| - 1]];
      Insert(names[|names| - 1], SortFunc(names[..|names| - 1], cmp), cmp)
  }

  /** With a total preorder the sort orders its result ascending. */
  lemma {:induction false} SortFuncSorted(names: seq<string>, cmp: (string, string) -> int)
    requires TotalPreorder(cmp)
    ensures SortedBy(SortFunc(names, cmp), cmp)
    decreases |names|
  {
    if names != [] {
      SortFuncSorted(names[..|names| - 1], cmp);
      InsertSorted(names[|names| - 1], SortFunc(names[..|names| - 1], cmp), cmp);
    }
  }

  /** A line that nothing in `s` is above goes to the end. */
  lemma {:induction false} InsertLast(x: string, s: seq<string>, cmp: (string, string) -> int)
    requires forall j :: 0 <= j < |s| ==> cmp(x, s[j]) >= 0
    ensures Insert(x, s, cmp) == s + [x]
    decreases |s|
  {
    if s != [] {
      InsertLast(x, s[1..], cmp);
      assert [s[0]] + (s[1..] + [x]) == s + [x];
    }
  }

  /** A prefix of a sorted sequence is sorted. */
  lemma SortedPrefix(names: seq<string>, n: nat, cmp: (string, string) -> int)
    requires n <= |names| && SortedBy(names, cmp)
    ensures SortedBy(names[..n], cmp)
  {
    forall i, j | 0 <= i < j < n ensures cmp(names[..n][i], names[..n][j]) <= 0 {
      assert names[..n][i] == names[i] && names[..n][j] == names[j];
    }
  }

  /** In a sorted sequence no earlier element is above the last one. */
  lemma NothingAboveLast(init: seq<string>, last: string, cmp: (string, string) -> int)
    requires SortedBy(init + [last], cmp)
    requires forall x, y :: cmp(x, y) < 0 <==> cmp(y, x) > 0
    ensures forall j :: 0 <= j < |init| ==> cmp(last, init[j]) >= 0
  {
    var names := init + [last];
    forall j | 0 <= j < |init| ensures cmp(last, init[j]) >= 0 {
      assert names[j] == init[j] && names[|init|] == last;
      assert cmp(names[j], names[|init|]) <= 0;
    }
  }

  /**
   * The sort is stable: a listing that is already in order, equal versions
   * included, comes back unchanged.
   */
  lemma {:induction false} SortFuncKeepsSorted(names: seq<string>, cmp: (string, string) -> int)
    requires forall x, y :: cmp(x, y) < 0 <==> cmp(y, x) > 0
    requires SortedBy(names, cmp)
    ensures SortFunc(names, cmp) == names
    decreases |names|
  {
    if names != [] {
      var init, last := names[..|names| - 1], names[|names| - 1];
      SortedPrefix(names, |names| - 1, cmp);
      SortFuncKeepsSorted(init, cmp);
      assert init + [last] == names;
      NothingAboveLast(init, last, cmp);
      InsertLast(last, init, cmp);
    }
  }

  /** The sort key of a listed line: its version, or "" when it has none. */
  function SortKey(line: string, packName: string): string {
    VersionFromArchiveName(line, packName).GetOr("")
  }

  /** The comparator of pacm/update.go:186-190. */
  function ByVersion(packName: string): (string, string) -> int {
    (x: string, y: string) => Compare(SortKey(x, packName), SortKey(y, packName))
  }

  /** The version comparator is a total preorder, so the sort is well defined. */
  lemma ByVersionTotalPreorder(packName: string)
    ensures TotalPreorder(ByVersion(packName))
  {
    var cmp := ByVersion(packName);
    forall x, y ensures (cmp(x, y) <= 0 || cmp(y, x) <= 0) && (cmp(x, y) < 0 <==> cmp(y, x) > 0) {
      CompareAntisymmetric(SortKey(x, packName), SortKey(y, packName));
    }
    forall x, y, z | cmp(x, y) <= 0 && cmp(y, z) <= 0 ensures cmp(x, z) <= 0 {
      CompareTransitive(SortKey(x, packName), SortKey(y, packName), SortKey(z, packName));
    }
  }

  // ---------------------------------------------------------------------
  // The scan

  /** What the scan learns from one line: no version, a miss, or a hit. */
  datatype Verdict = Invalid | Miss | Hit(arch: string)

  /** The tests of pacm/update.go:197-204 on one listed line. */
  function Classify(line: string, packName: string, ver: string): (v: Verdict)
    ensures v.Hit? ==> v.arch == Base(line)
  {
    var arch := Base(line);
    match VersionFromArchiveName(arch, packName)
    case Err(_) => Invalid
    case Ok(actualVer) => if CheckVersion(ver, actualVer) then Hit(arch) else Miss
  }

  /**
   * A line is invalid exactly when its name has no version, and otherwise
   * a hit exactly when its version satisfies the constraint.
   */
  lemma ClassifyMeaning(line: string, packName: string, ver: string)
    ensures var v := Classify(line, packName, ver);
            var r := VersionFromArchiveName(line, packName);
            (v.Invalid? <==> r.Err?) && (r.Ok? ==> (v.Hit? <==> CheckVersion(ver, r.value)))
  {
    VersionOfBase(line, packName);
  }

  function Verdicts(names: seq<string>, packName: string, ver: string): (vs: seq<Verdict>)
    ensures |vs| == |names|
    ensures forall j {:trigger vs[j]} :: 0 <= j < |names| ==> vs[j] == Classify(names[j], packName, ver)
  {
    seq(|names|, j requires 0 <= j < |names| => Classify(names[j], packName, ver))
  }

  /**
   * The loop of pacm/update.go:195-216 from position `i` in the state
   * (`archName`, `found`): an invalid name clears `archName` and goes on, a
   * hit is remembered, and a miss after a hit stops the scan.
   */
  function ScanFrom(vs: seq<Verdict>, i: nat, archName: string, found: bool): string
    requires i <= |vs|
    decreases |vs| - i
  {
    if i == |vs| then archName
    else
      match vs[i]
      case Invalid => ScanFrom(vs, i + 1, "", found)
      case Hit(arch) => ScanFrom(vs, i + 1, arch, true)
      case Miss => if found then archName else ScanFrom(vs, i + 1, archName, found)
  }

  /** The name the scan selects from the sorted lines. */
  function Scan(names: seq<string>, packName: string, ver: string): string {
    ScanFrom(Verdicts(names, packName, ver), 0, "", false)
  }

  lemma {:induction false} ScanFromSelectsHit(vs: seq<Verdict>, i: nat, archName: string, found: bool)
    requires i <= |vs|
    requires archName == "" || Hit(archName) in vs
    decreases |vs| - i
    ensures var r := ScanFrom(vs, i, archName, found); r == "" || Hit(r) in vs
  {
    if i < |vs| {
      match vs[i]
      case Invalid => ScanFromSelectsHit(vs, i + 1, "", found);
      case Hit(arch) => ScanFromSelectsHit(vs, i + 1, arch, true);
      case Miss =>
        if !found {
          ScanFromSelectsHit(vs, i + 1, archName, found);
        }
    }
  }

  /**
   * With no hit ahead, the scan ends with the name it held (a miss after a
   * hit stops it, and so does the end) or with nothing (an invalid name
   * clears it); it never selects a new name.
   */
  lemma {:induction false} ScanFromNoHit(vs: seq<Verdict>, i: nat, archName: string, found: bool)
    requires i <= |vs|
    requires forall j :: i <= j < |vs| ==> !vs[j].Hit?
    decreases |vs| - i
    ensures var r := ScanFrom(vs, i, archName, found); r == archName || r == ""
  {
    if i < |vs| {
      match vs[i]
      case Invalid => ScanFromNoHit(vs, i + 1, "", found);
      case Miss =>
        if !found {
          ScanFromNoHit(vs, i + 1, archName, found);
        }
    }
  }

  lemma {:induction false} ScanSkipsMisses(vs: seq<Verdict>, i: nat, lo: nat)
    requires i <= lo <= |vs|
    requires forall j :: i <= j < lo ==> !vs[j].Hit?
    decreases lo - i
    ensures ScanFrom(vs, i, "", false) == ScanFrom(vs, lo, "", false)
  {
    if i < lo {
      ScanSkipsMisses(vs, i + 1, lo);
    }
  }

  lemma {:induction false} ScanThroughHits(vs: seq<Verdict>, i: nat, hi: nat, archName: string, found: bool)
    requires i < hi <= |vs|
    requires forall j :: i <= j < hi ==> vs[j].Hit?
    decreases hi - i
    ensures ScanFrom(vs, i, archName, found) == ScanFrom(vs, hi, vs[hi - 1].arch, true)
  {
    if i + 1 < hi {
      ScanThroughHits(vs, i + 1, hi, vs[i].arch, true);
    }
  }

  /**
   * The scan selects the last line of the first run of hits when the run
   * ends at the end of the listing or at a line that misses.
   */
  lemma RunOfHitsSelectsLast(vs: seq<Verdict>, lo: nat, hi: nat)
    requires lo < hi <= |vs|
    requires forall j :: 0 <= j < lo ==> !vs[j].Hit?
    requires forall j :: lo <= j < hi ==> vs[j].Hit?
    requires hi < |vs| ==> vs[hi].Miss?
    ensures ScanFrom(vs, 0, "", false) == vs[hi - 1].arch
  {
    ScanSkipsMisses(vs, 0, lo);
    ScanThroughHits(vs, lo, hi, "", false);
  }

  /** Whatever the scan selects is the base name of a listed line that hits. */
  lemma ScanSelectsHit(names: seq<string>, packName: string, ver: string)
    ensures var r := Scan(names, packName, ver);
            r == "" || exists j :: 0 <= j < |names| && Classify(names[j], packName, ver) == Hit(r)
  {
    var vs := Verdicts(names, packName, ver);
    ScanFromSelectsHit(vs, 0, "", false);
  }

  /** Without a hit the scan selects nothing. */
  lemma NoHitSelectsNothing(names: seq<string>, packName: string, ver: string)
    requires forall j :: 0 <= j < |names| ==> !Classify(names[j], packName, ver).Hit?
    ensures Scan(names, packName, ver) == ""
  {
    ScanFromNoHit(Verdicts(names, packName, ver), 0, "", false);
  }

  /**
   * The scan goes on from `k` to `i`: no miss between `k` and `i` follows
   * a hit, and none does at all once a hit has been seen.
   */
  ghost predicate ScanReaches(vs: seq<Verdict>, k: nat, i: nat, found: bool)
    requires k <= i <= |vs|
  {
    (forall h, j :: k <= h < j < i && vs[h].Hit? ==> !vs[j].Miss?) &&
    (found ==> forall j :: k <= j < i ==> !vs[j].Miss?)
  }

  lemma {:induction false} ScanFromClearedAt(vs: seq<Verdict>, k: nat, i: nat, archName: string, found: bool)
    requires k <= i < |vs| && vs[i].Invalid?
    requires ScanReaches(vs, k, i, found)
    requires forall j :: i < j < |vs| ==> !vs[j].Hit?
    decreases i - k
    ensures ScanFrom(vs, k, archName, found) == ""
  {
    if k == i {
      ScanFromNoHit(vs, i + 1, "", found);
    } else {
      match vs[k]
      case Invalid => ScanFromClearedAt(vs, k + 1, i, "", found);
      case Hit(arch) => ScanFromClearedAt(vs, k + 1, i, arch, true);
      case Miss => ScanFromClearedAt(vs, k + 1, i, archName, found);
    }
  }

  /**
   * A line without a version clears the selection (pacm/update.go:199-203):
   * when the scan reaches an invalid name and no hit follows it, nothing is
   * selected, whatever hits came before.
   */
  lemma InvalidNameClearsSelection(vs: seq<Verdict>, i: nat)
    requires i < |vs| && vs[i].Invalid?
    requires forall h, j :: 0 <= h < j < i && vs[h].Hit? ==> !vs[j].Miss?
    requires forall j :: i < j < |vs| ==> !vs[j].Hit?
    ensures ScanFrom(vs, 0, "", false) == ""
  {
    ScanFromClearedAt(vs, 0, i, "", false);
  }

  /** The first hit at or after `i`. */
  ghost function FirstHit(vs: seq<Verdict>, i: nat): (k: nat)
    requires exists j :: i <= j < |vs| && vs[j].Hit?
    decreases |vs| - i
    ensures i <= k < |vs| && vs[k].Hit?
    ensures forall j :: i <= j < k ==> !vs[j].Hit?
  {
    if vs[i].Hit? then i else FirstHit(vs, i + 1)
  }

  /** The first non-hit at or after `i`. */
  ghost function FirstNonHit(vs: seq<Verdict>, i: nat): (k: nat)
    requires exists j :: i <= j < |vs| && !vs[j].Hit?
    decreases |vs| - i
    ensures i <= k < |vs| && !vs[k].Hit?
    ensures forall j :: i <= j < k ==> vs[j].Hit?
  {
    if !vs[i].Hit? then i else FirstNonHit(vs, i + 1)
  }

  /** Every hit is followed only by hits. */
  ghost predicate HitsUpward(vs: seq<Verdict>) {
    forall i, j :: 0 <= i < j < |vs| && vs[i].Hit? ==> vs[j].Hit?
  }

  /** No line lacks a version. */
  ghost predicate NoneInvalid(vs: seq<Verdict>) {
    forall j :: 0 <= j < |vs| ==> !vs[j].Invalid?
  }

  /** `k` is the last hit of `vs`. */
  ghost predicate LastHit(vs: seq<Verdict>, k: int) {
    0 <= k < |vs| && vs[k].Hit? && forall j :: k < j < |vs| ==> !vs[j].Hit?
  }

  /** Every hit is preceded only by hits. */
  ghost predicate HitsDownward(vs: seq<Verdict>) {
    forall i, j :: 0 <= i < j < |vs| && vs[j].Hit? ==> vs[i].Hit?
  }

  /** With hits only after hits, the last line is a hit once any line is. */
  lemma LastOfUpward(vs: seq<Verdict>, j: int, last: int)
    requires HitsUpward(vs)
    requires 0 <= j < |vs| && vs[j].Hit? && last == |vs| - 1
    ensures vs[last].Hit?
  {
    if j < last {
      assert vs[j].Hit? ==> vs[last].Hit?;
    }
  }

  /** With hits only after hits, a listing with some hit selects its last line. */
  lemma UpwardHitsSelectLast(vs: seq<Verdict>)
    requires HitsUpward(vs)
    requires exists j :: 0 <= j < |vs| && vs[j].Hit?
    ensures ScanFrom(vs, 0, "", false) == vs[|vs| - 1].arch
  {
    var lo := FirstHit(vs, 0);
    RunOfHitsSelectsLast(vs, lo, |vs|);
  }

  /**
   * With hits only before hits and no invalid line, a listing with some
   * hit selects its last hit.
   */
  lemma DownwardHitsSelectLastHit(vs: seq<Verdict>)
    requires HitsDownward(vs) && NoneInvalid(vs)
    requires exists j :: 0 <= j < |vs| && vs[j].Hit?
    ensures exists k :: LastHit(vs, k) && ScanFrom(vs, 0, "", false) == vs[k].arch
  {
    assert vs[0].Hit?;
    var hi := if exists j :: 0 <= j < |vs| && !vs[j].Hit? then FirstNonHit(vs, 0) else |vs|;
    RunOfHitsSelectsLast(vs, 0, hi);
    assert LastHit(vs, hi - 1);
  }

  /** With hits only after hits, a listing with some hit selects its last hit. */
  lemma UpwardHitsSelectLastHit(vs: seq<Verdict>)
    requires HitsUpward(vs)
    requires exists j :: 0 <= j < |vs| && vs[j].Hit?
    ensures exists k :: LastHit(vs, k) && ScanFrom(vs, 0, "", false) == vs[k].arch
  {
    var j :| 0 <= j < |vs| && vs[j].Hit?;
    var last := |vs| - 1;
    LastOfUpward(vs, j, last);
    UpwardHitsSelectLast(vs);
    assert LastHit(vs, last);
  }

  /** Every line yields a version. */
  ghost predicate AllValid(names: seq<string>, packName: string) {
    forall j {:trigger VersionFromArchiveName(names[j], packName)} :: 0 <= j < |names| ==>
      VersionFromArchiveName(names[j], packName).Ok?
  }

  /** Under a `>` or `>=` constraint a version at least as high as a hit is a hit. */
  lemma GreaterHitUpward(x: string, y: string, packName: string, ver: string)
    requires HasPrefix(ver, ">")
    requires VersionFromArchiveName(x, packName).Ok? && VersionFromArchiveName(y, packName).Ok?
    requires ByVersion(packName)(x, y) <= 0
    ensures Classify(x, packName, ver).Hit? ==> Classify(y, packName, ver).Hit?
  {
    ClassifyMeaning(x, packName, ver);
    ClassifyMeaning(y, packName, ver);
    if Classify(x, packName, ver).Hit? {
      GreaterConstraintUpwardClosed(ver, SortKey(x, packName), SortKey(y, packName));
    }
  }

  /** Under a `<` or `<=` constraint a version at most as high as a hit is a hit. */
  lemma LessHitDownward(x: string, y: string, packName: string, ver: string)
    requires HasPrefix(ver, "<")
    requires VersionFromArchiveName(x, packName).Ok? && VersionFromArchiveName(y, packName).Ok?
    requires ByVersion(packName)(x, y) <= 0
    ensures Classify(y, packName, ver).Hit? ==> Classify(x, packName, ver).Hit?
  {
    ClassifyMeaning(x, packName, ver);
    ClassifyMeaning(y, packName, ver);
    if Classify(y, packName, ver).Hit? {
      LessConstraintDownwardClosed(ver, SortKey(y, packName), SortKey(x, packName));
    }
  }

  /** Over sorted names with versions, the hits of a `>` or `>=` constraint form a suffix. */
  lemma GreaterConstraintHitsUpward(names: seq<string>, packName: string, ver: string)
    requires HasPrefix(ver, ">")
    requires SortedBy(names, ByVersion(packName)) && AllValid(names, packName)
    ensures HitsUpward(Verdicts(names, packName, ver))
  {
    var vs := Verdicts(names, packName, ver);
    forall i, j | 0 <= i < j < |vs| && vs[i].Hit? ensures vs[j].Hit? {
      GreaterHitUpward(names[i], names[j], packName, ver);
    }
  }

  /** Over sorted names with versions, the hits of a `<` or `<=` constraint form a prefix. */
  lemma LessConstraintHitsDownward(names: seq<string>, packName: string, ver: string)
    requires HasPrefix(ver, "<")
    requires SortedBy(names, ByVersion(packName)) && AllValid(names, packName)
    ensures HitsDownward(Verdicts(names, packName, ver))
  {
    var vs := Verdicts(names, packName, ver);
    forall i, j | 0 <= i < j < |vs| && vs[j].Hit? ensures vs[i].Hit? {
      LessHitDownward(names[i], names[j], packName, ver);
    }
  }

  /**
   * A `>` or `>=` constraint over sorted names that all carry a version:
   * whenever some name hits, the scan selects the last name.
   */
  lemma GreaterConstraintSelectsLast(names: seq<string>, packName: string, ver: string)
    requires HasPrefix(ver, ">")
    requires SortedBy(names, ByVersion(packName)) && AllValid(names, packName)
    requires exists j :: 0 <= j < |names| && Classify(names[j], packName, ver).Hit?
    ensures Scan(names, packName, ver) == Base(names[|names| - 1])
  {
    GreaterConstraintHitsUpward(names, packName, ver);
    var vs := Verdicts(names, packName, ver);
    var w :| 0 <= w < |names| && Classify(names[w], packName, ver).Hit?;
    assert vs[w].Hit?;
    UpwardHitsSelectLast(vs);
    assert vs[|vs| - 1] == Classify(names[|names| - 1], packName, ver);
  }

  /** Names that all carry a version classify as hits or misses. */
  lemma AllValidNoneInvalid(names: seq<string>, packName: string, ver: string)
    requires AllValid(names, packName)
    ensures NoneInvalid(Verdicts(names, packName, ver))
  {
    var vs := Verdicts(names, packName, ver);
    forall j | 0 <= j < |vs| ensures !vs[j].Invalid? {
      assert VersionFromArchiveName(names[j], packName).Ok?;
      ClassifyMeaning(names[j], packName, ver);
      assert vs[j] == Classify(names[j], packName, ver);
    }
  }

  /** The last hit among the verdicts is the last hit among the names. */
  lemma LastHitOfNames(names: seq<string>, packName: string, ver: string, k: int)
    requires LastHit(Verdicts(names, packName, ver), k)
    ensures 0 <= k < |names| && Classify(names[k], packName, ver).Hit?
    ensures Verdicts(names, packName, ver)[k].arch == Base(names[k])
    ensures forall j :: k < j < |names| ==> !Classify(names[j], packName, ver).Hit?
  {
    var vs := Verdicts(names, packName, ver);
    assert vs[k] == Classify(names[k], packName, ver);
    forall j | k < j < |names| ensures !Classify(names[j], packName, ver).Hit? {
      assert vs[j] == Classify(names[j], packName, ver);
    }
  }

  /**
   * A `<` or `<=` constraint over sorted names that all carry a version:
   * the scan selects the last hit.
   */
  lemma LessConstraintSelectsLastHit(names: seq<string>, packName: string, ver: string)
    requires HasPrefix(ver, "<")
    requires SortedBy(names, ByVersion(packName)) && AllValid(names, packName)
    requires exists j :: 0 <= j < |names| && Classify(names[j], packName, ver).Hit?
    ensures exists k :: 0 <= k < |names| && Classify(names[k], packName, ver).Hit? &&
                        Scan(names, packName, ver) == Base(names[k]) &&
                        (forall j :: k < j < |names| ==> !Classify(names[j], packName, ver).Hit?)
  {
    LessConstraintHitsDownward(names, packName, ver);
    AllValidNoneInvalid(names, packName, ver);
    var vs := Verdicts(names, packName, ver);
    var w :| 0 <= w < |names| && Classify(names[w], packName, ver).Hit?;
    assert vs[w].Hit?;
    DownwardHitsSelectLastHit(vs);
    var k :| LastHit(vs, k) && ScanFrom(vs, 0, "", false) == vs[k].arch;
    LastHitOfNames(names, packName, ver, k);
    assert Scan(names, packName, ver) == Base(names[k]);
  }

  // ---------------------------------------------------------------------
  // getArchiveName

  /** What the SSH session yields: a failed session, a failed `ls`, or its output. */
  datatype Listing = SessionError | CommandError | Output(text: string)

  /** The errors `getArchiveName` returns. */
  datatype ResolveError =
    | SessionFailed
    | CommandFailed
    | NoArchiveFound(packName: string, ver: string)
    | NoMatchingArchive(packName: string, ver: string)

  /** The pair (archName, err) that `getArchiveName` returns. */
  datatype Resolution = Resolution(archName: string, err: Option<ResolveError>)

  /** The listed lines of a non-empty listing, in the order `ls` printed them. */
  function ListedLines(out: string): (lines: seq<string>)
    ensures |lines| >= 1
  {
    Split(TrimSpace(out), '\n')
  }

  /** What the scan selects from the sorted lines of a listing. */
  function Selected(out: string, packName: string, ver: string): string {
    Scan(SortFunc(ListedLines(out), ByVersion(packName)), packName, ver)
  }

  /**
   * `getArchiveName` (pacm/update.go:158-218) on the outcome of the
   * listing: a failed session or command, and an empty listing, are
   * errors; otherwise the sorted lines are scanned and the error is nil,
   * whatever the scan selects.
   */
  function Resolve(listing: Listing, packName: string, ver: string): Resolution
  {
    match listing
    case SessionError => Resolution("", Some(SessionFailed))
    case CommandError => Resolution("", Some(CommandFailed))
    case Output(out) =>
      var archNames := TrimSpace(out);
      if archNames == "" then Resolution("", Some(NoArchiveFound(packName, ver)))
      else Resolution(Selected(out, packName, ver), None)
  }

  /**
   * `getArchiveName` fails exactly when the session or the command fails or
   * the listing is blank, and then selects nothing.
   */
  lemma ResolveErrors(listing: Listing, packName: string, ver: string)
    ensures var r := Resolve(listing, packName, ver);
            (r.err.Some? ==> r.archName == "") &&
            (r.err.Some? <==> !listing.Output? || TrimSpace(listing.text) == "")
  {
    if listing.Output? && TrimSpace(listing.text) != "" {
      ResolveOutput(listing.text, packName, ver);
    }
  }

  /**
   * `getArchiveName` (pacm/update.go:158-218): the error paths, the
   * trimming, splitting and sorting of the listing, then the scan.
   */
  method GetArchiveName(listing: Listing, packName: string, ver: string) returns (archName: string, err: Option<ResolveError>)
    ensures archName == Resolve(listing, packName, ver).archName
    ensures err == Resolve(listing, packName, ver).err
  {
    archName, err := "", None;
    if listing.SessionError? {
      err := Some(SessionFailed);
      return;
    }
    if listing.CommandError? {
      err := Some(CommandFailed);
      return;
    }
    var archNames := TrimSpace(listing.text);
    if archNames == "" {
      err := Some(NoArchiveFound(packName, ver));
      return;
    }
    var archNamesSlice := SortFunc(Split(archNames, '\n'), ByVersion(packName));
    archName := SelectArchive(archNamesSlice, packName, ver);
    ResolveOutput(listing.text, packName, ver);
  }

  /** The loop of pacm/update.go:195-216 over the sorted lines. */
  method SelectArchive(archNamesSlice: seq<string>, packName: string, ver: string) returns (archName: string)
    ensures archName == Scan(archNamesSlice, packName, ver)
  {
    ghost var vs := Verdicts(archNamesSlice, packName, ver);
    ghost var expected := ScanFrom(vs, 0, "", false);
    archName := "";
    var found := false;
    for k := 0 to |archNamesSlice|
      invariant ScanFrom(vs, k, archName, found) == expected
    {
      var arch := Base(archNamesSlice[k]);
      ClassifyUnfold(archNamesSlice[k], packName, ver);
      assert vs[k] == Classify(archNamesSlice[k], packName, ver);
      match VersionFromArchiveName(arch, packName)
      case Err(_) =>
        // the error is local to the loop and is not returned
        archName := "";
      case Ok(actualVer) =>
        if CheckVersion(ver, actualVer) {
          archName := arch;
          found := true;
        } else if found {
          break;
        }
    }
  }

  /** The three outcomes of `Classify`, spelled out for the loop. */
  lemma ClassifyUnfold(line: string, packName: string, ver: string)
    ensures var r := VersionFromArchiveName(Base(line), packName);
            Classify(line, packName, ver) ==
              if r.Err? then Invalid else if CheckVersion(ver, r.value) then Hit(Base(line)) else Miss
  {
  }

  /** A non-empty listing is scanned in sorted order and reports no error. */
  lemma ResolveOutput(out: string, packName: string, ver: string)
    requires TrimSpace(out) != ""
    ensures Resolve(Output(out), packName, ver)
         == Resolution(Selected(out, packName, ver), None)
  {
  }

  /** A line of a permutation of the listing is a listed line. */
  lemma PermutedLine(lines: seq<string>, sorted: seq<string>, j: int)
    requires multiset(sorted) == multiset(lines)
    requires 0 <= j < |sorted|
    ensures sorted[j] in lines
  {
    assert sorted[j] in multiset(sorted);
  }

  /** A listed line sits somewhere in a permutation of the listing. */
  lemma ListedLineIndex(lines: seq<string>, sorted: seq<string>, line: string) returns (j: int)
    requires multiset(sorted) == multiset(lines)
    requires line in lines
    ensures 0 <= j < |sorted| && sorted[j] == line
  {
    assert line in multiset(lines);
    assert line in sorted;
    j :| 0 <= j < |sorted| && sorted[j] == line;
  }

  /** A selected name is a hit, named by its own base name. */
  lemma SelectedNameIsHit(line: string, packName: string, ver: string)
    requires Classify(line, packName, ver).Hit?
    ensures Classify(Base(line), packName, ver) == Hit(Base(line))
  {
    BaseIdempotent(line);
    VersionOfBase(line, packName);
  }

  /**
   * Whatever `getArchiveName` selects is the base name of a listed line
   * whose version satisfies the constraint, and it reports no error then.
   */
  lemma ResolveSelectsListedHit(listing: Listing, packName: string, ver: string)
    ensures var r := Resolve(listing, packName, ver);
            r.archName != "" ==>
              r.err.None? && listing.Output? &&
              Classify(r.archName, packName, ver) == Hit(r.archName) &&
              exists line :: line in ListedLines(listing.text) && Base(line) == r.archName
  {
    var r := Resolve(listing, packName, ver);
    if r.archName != "" {
      var lines := ListedLines(listing.text);
      var sorted := SortFunc(lines, ByVersion(packName));
      ScanSelectsHit(sorted, packName, ver);
      var j :| 0 <= j < |sorted| && Classify(sorted[j], packName, ver) == Hit(r.archName);
      PermutedLine(lines, sorted, j);
      SelectedNameIsHit(sorted[j], packName, ver);
    }
  }

  /** Earlier lines of a sorted listing have versions no higher than later ones. */
  lemma SortedKeysAscend(sorted: seq<string>, packName: string, j: int, k: int)
    requires SortedBy(sorted, ByVersion(packName))
    requires 0 <= j <= k < |sorted|
    ensures Compare(SortKey(sorted[j], packName), SortKey(sorted[k], packName)) <= 0
  {
    if j < k {
      assert ByVersion(packName)(sorted[j], sorted[k]) <= 0;
    } else {
      CompareReflexive(SortKey(sorted[k], packName));
    }
  }

  /** A permutation of a listing whose lines all carry a version, and some of which hits. */
  lemma PermutedHits(lines: seq<string>, sorted: seq<string>, packName: string, ver: string)
    requires multiset(sorted) == multiset(lines)
    requires forall line :: line in lines ==> VersionFromArchiveName(line, packName).Ok?
    requires exists line :: line in lines && Classify(line, packName, ver).Hit?
    ensures AllValid(sorted, packName)
    ensures exists j :: 0 <= j < |sorted| && Verdicts(sorted, packName, ver)[j].Hit?
  {
    forall j | 0 <= j < |sorted| ensures VersionFromArchiveName(sorted[j], packName).Ok? {
      PermutedLine(lines, sorted, j);
    }
    var line :| line in lines && Classify(line, packName, ver).Hit?;
    var j := ListedLineIndex(lines, sorted, line);
    assert Verdicts(sorted, packName, ver)[j] == Classify(sorted[j], packName, ver);
  }

  /** Every listed hit has a version no higher than the last hit `k` of the sorted listing. */
  lemma HitsBelowLastHit(lines: seq<string>, sorted: seq<string>, packName: string, ver: string, k: int)
    requires multiset(sorted) == multiset(lines)
    requires SortedBy(sorted, ByVersion(packName))
    requires 0 <= k < |sorted|
    requires forall j :: k < j < |sorted| ==> !Classify(sorted[j], packName, ver).Hit?
    ensures forall other :: other in lines && Classify(other, packName, ver).Hit? ==>
              Compare(SortKey(other, packName), SortKey(sorted[k], packName)) <= 0
  {
    forall other | other in lines && Classify(other, packName, ver).Hit?
      ensures Compare(SortKey(other, packName), SortKey(sorted[k], packName)) <= 0
    {
      var j := ListedLineIndex(lines, sorted, other);
      SortedKeysAscend(sorted, packName, j, k);
    }
  }

  /**
   * For a relational constraint over a listing whose names all carry a
   * version, the scan of ANY ascending permutation of the listing selects a
   * line that hits and whose version is the highest among the hits, so the
   * order a sort leaves equal versions in does not matter.
   */
  lemma AnySortSelectsGreatestHit(lines: seq<string>, sorted: seq<string>, packName: string, ver: string)
    requires HasPrefix(ver, ">") || HasPrefix(ver, "<")
    requires multiset(sorted) == multiset(lines)
    requires SortedBy(sorted, ByVersion(packName))
    requires forall line :: line in lines ==> VersionFromArchiveName(line, packName).Ok?
    requires exists line :: line in lines && Classify(line, packName, ver).Hit?
    ensures exists line :: line in lines && Classify(line, packName, ver).Hit? &&
              Scan(sorted, packName, ver) == Base(line) &&
              forall other :: other in lines && Classify(other, packName, ver).Hit? ==>
                Compare(SortKey(other, packName), SortKey(line, packName)) <= 0
  {
    PermutedHits(lines, sorted, packName, ver);
    var vs := Verdicts(sorted, packName, ver);
    if HasPrefix(ver, ">") {
      GreaterConstraintHitsUpward(sorted, packName, ver);
      UpwardHitsSelectLastHit(vs);
    } else {
      LessConstraintHitsDownward(sorted, packName, ver);
      AllValidNoneInvalid(sorted, packName, ver);
      DownwardHitsSelectLastHit(vs);
    }
    var k :| LastHit(vs, k) && ScanFrom(vs, 0, "", false) == vs[k].arch;
    LastHitOfNames(sorted, packName, ver, k);
    HitsBelowLastHit(lines, sorted, packName, ver, k);
    PermutedLine(lines, sorted, k);
    assert Scan(sorted, packName, ver) == Base(sorted[k]);
  }

  /**
   * For a relational constraint over a listing whose names all carry a
   * version, `getArchiveName` selects a line that hits and whose version is
   * the highest among the hits.
   */
  lemma ResolveSelectsGreatestHit(out: string, packName: string, ver: string)
    requires HasPrefix(ver, ">") || HasPrefix(ver, "<")
    requires TrimSpace(out) != ""
    requires forall line :: line in ListedLines(out) ==> VersionFromArchiveName(line, packName).Ok?
    requires exists line :: line in ListedLines(out) && Classify(line, packName, ver).Hit?
    ensures var r := Resolve(Output(out), packName, ver);
            r.err.None? &&
            exists line :: line in ListedLines(out) && Classify(line, packName, ver).Hit? &&
              r.archName == Base(line) &&
              forall other :: other in ListedLines(out) && Classify(other, packName, ver).Hit? ==>
                Compare(SortKey(other, packName), SortKey(line, packName)) <= 0
  {
    var lines := ListedLines(out);
    var sorted := SortFunc(lines, ByVersion(packName));
    ResolveOutput(out, packName, ver);
    ByVersionTotalPreorder(packName);
    SortFuncSorted(lines, ByVersion(packName));
    AnySortSelectsGreatestHit(lines, sorted, packName, ver);
  }

  /**
   * As written, a listing none of whose lines satisfies the constraint
   * yields an empty name and a nil error: no check follows the scan loop
   * (pacm/update.go:195-217), and the loop's own `err` (line 198) never
   * reaches the result.
   */
  lemma NoMatchIsSilent(out: string, packName: string, ver: string)
    requires TrimSpace(out) != ""
    requires forall line :: line in ListedLines(out) ==> !Classify(line, packName, ver).Hit?
    ensures Resolve(Output(out), packName, ver) == Resolution("", None)
  {
    var lines := ListedLines(out);
    var sorted := SortFunc(lines, ByVersion(packName));
    ResolveOutput(out, packName, ver);
    forall j | 0 <= j < |sorted| ensures !Classify(sorted[j], packName, ver).Hit? {
      PermutedLine(lines, sorted, j);
    }
    NoHitSelectsNothing(sorted, packName, ver);
  }

  /**
   * `getArchiveName` as evidently intended: a listing without a matching
   * archive is reported as an error instead of an empty name with a nil
   * error.
   */
  function ResolveChecked(listing: Listing, packName: string, ver: string): (r: Resolution)
    ensures r.err.None? <==> r.archName != ""
    ensures r.archName == Resolve(listing, packName, ver).archName
  {
    var r := Resolve(listing, packName, ver);
    if r.err.None? && r.archName == "" then Resolution("", Some(NoMatchingArchive(packName, ver))) else r
  }

  /** A listing without a matching archive is reported by the corrected resolution. */
  lemma CheckedNoMatchIsReported(out: string, packName: string, ver: string)
    requires TrimSpace(out) != ""
    requires forall line :: line in ListedLines(out) ==> !Classify(line, packName, ver).Hit?
    ensures ResolveChecked(Output(out), packName, ver).err == Some(NoMatchingArchive(packName, ver))
  {
    NoMatchIsSilent(out, packName, ver);
  }
}
