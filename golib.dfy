/**
 * The parts of Go's standard library that the package manager relies on,
 * written out so that the model's quirks follow from their real behaviour:
 * `strings.HasPrefix`, `TrimPrefix`, `TrimSuffix`, `Split`, `TrimSpace`,
 * `path/filepath.Base` and `Dir` (Unix separator) and `strconv.Atoi`
 * (64-bit `int`).
 */
module GoLib {
  import opened Wrappers

  predicate HasPrefix(s: string, prefix: string) {
    |prefix| <= |s| && s[..|prefix|] == prefix
  }

  predicate HasSuffix(s: string, suffix: string) {
    |suffix| <= |s| && s[|s| - |suffix|..] == suffix
  }

  /** `strings.TrimPrefix`: removes one leading `prefix`, if present. */
  function TrimPrefix(s: string, prefix: string): (r: string)
    ensures HasPrefix(s, prefix) ==> prefix + r == s
    ensures !HasPrefix(s, prefix) ==> r == s
  {
    if HasPrefix(s, prefix) then s[|prefix|..] else s
  }

  /** `strings.TrimSuffix`: removes one trailing `suffix`, if present. */
  function TrimSuffix(s: string, suffix: string): (r: string)
    ensures HasSuffix(s, suffix) ==> r + suffix == s
    ensures !HasSuffix(s, suffix) ==> r == s
  {
    if HasSuffix(s, suffix) then s[..|s| - |suffix|] else s
  }

  /** Inverse of `Split`: the parts glued back together with `sep` between them. */
  function Join(parts: seq<string>, sep: char): string
    requires |parts| >= 1
  {
    if |parts| == 1 then parts[0] else parts[0] + [sep] + Join(parts[1..], sep)
  }

  /** `strings.Split` with a one-character separator: always at least one part. */
  function Split(s: string, sep: char): (parts: seq<string>)
    ensures |parts| >= 1
    ensures forall i :: 0 <= i < |parts| ==> sep !in parts[i]
    ensures sep !in s ==> parts == [s]
  {
    if s == [] then [""]
    else
      var rest := Split(s[1..], sep);
      if s[0] == sep then [""] + rest
      else
        assert sep !in s ==> [s[0]] + rest[0] == s;
        [[s[0]] + rest[0]] + rest[1..]
  }

  /** Joining the parts with the separator gives back the split string. */
  lemma {:induction false} SplitJoin(s: string, sep: char)
    ensures Join(Split(s, sep), sep) == s
  {
    if s != [] {
      SplitJoin(s[1..], sep);
      var rest := Split(s[1..], sep);
      if s[0] != sep {
        var parts := Split(s, sep);
        assert parts[1..] == rest[1..];
        if |rest| > 1 {
          assert Join(rest, sep) == rest[0] + [sep] + Join(rest[1..], sep);
        }
      }
    }
  }

  /** Splitting a string glued with `sep` splits each side separately. */
  lemma {:induction false} SplitAppend(v: string, w: string, sep: char)
    ensures Split(v + [sep] + w, sep) == Split(v, sep) + Split(w, sep)
  {
    if v == [] {
      assert v + [sep] + w == [sep] + w;
      assert ([sep] + w)[1..] == w;
    } else {
      assert (v + [sep] + w)[1..] == v[1..] + [sep] + w;
      SplitAppend(v[1..], w, sep);
    }
  }

  /** `unicode.IsSpace`, the set of characters `strings.TrimSpace` removes. */
  predicate IsSpace(c: char) {
    var n := c as int;
    (0x09 <= n <= 0x0D) || n == 0x20 || n == 0x85 || n == 0xA0 || n == 0x1680
    || (0x2000 <= n <= 0x200A) || n == 0x2028 || n == 0x2029 || n == 0x202F
    || n == 0x205F || n == 0x3000
  }

  function TrimLeftSpace(s: string): (r: string)
    ensures |r| <= |s| && r == s[|s| - |r|..]
    ensures forall i :: 0 <= i < |s| - |r| ==> IsSpace(s[i])
    ensures r == [] || !IsSpace(r[0])
  {
    if s != [] && IsSpace(s[0]) then TrimLeftSpace(s[1..]) else s
  }

  function TrimRightSpace(s: string): (r: string)
    ensures |r| <= |s| && r == s[..|r|]
    ensures forall i :: |r| <= i < |s| ==> IsSpace(s[i])
    ensures r == [] || !IsSpace(r[|r| - 1])
  {
    if s != [] && IsSpace(s[|s| - 1]) then TrimRightSpace(s[..|s| - 1]) else s
  }

  /** `strings.TrimSpace`: the input without its leading and trailing white space. */
  function TrimSpace(s: string): (r: string)
    ensures r == [] || (!IsSpace(r[0]) && !IsSpace(r[|r| - 1]))
    ensures (forall i :: 0 <= i < |s| ==> IsSpace(s[i])) <==> r == []
  {
    var l := TrimLeftSpace(s);
    var r := TrimRightSpace(l);
    assert r != [] ==> r[0] == l[0];
    r
  }

  /** `r` is `s[i..j]`, and everything outside `i..j` is white space. */
  ghost predicate SpaceCut(s: string, r: string, i: int, j: int) {
    0 <= i <= j <= |s| && r == s[i..j] &&
    forall k :: 0 <= k < |s| && (k < i || j <= k) ==> IsSpace(s[k])
  }

  /** Cutting white space from the front and then from the back is one cut. */
  lemma CutCompose(s: string, l: string, r: string)
    requires |l| <= |s| && l == s[|s| - |l|..]
    requires forall k :: 0 <= k < |s| - |l| ==> IsSpace(s[k])
    requires |r| <= |l| && r == l[..|r|]
    requires forall k :: |r| <= k < |l| ==> IsSpace(l[k])
    ensures SpaceCut(s, r, |s| - |l|, |s| - |l| + |r|)
  {
    var i := |s| - |l|;
    forall k | i + |r| <= k < |s| ensures IsSpace(s[k]) {
      assert s[k] == l[k - i];
    }
  }

  /** `strings.TrimSpace` cuts only white space, and only from the two ends. */
  lemma TrimSpaceCutsOnlySpace(s: string)
    ensures exists i, j :: SpaceCut(s, TrimSpace(s), i, j)
  {
    var l := TrimLeftSpace(s);
    var r := TrimRightSpace(l);
    CutCompose(s, l, r);
    assert SpaceCut(s, TrimSpace(s), |s| - |l|, |s| - |l| + |r|);
  }

  function StripTrailingSlashes(p: string): (r: string)
    ensures |r| <= |p| && r == p[..|r|]
    ensures r == [] || r[|r| - 1] != '/'
    ensures '/' !in p ==> r == p
  {
    if p != [] && p[|p| - 1] == '/' then StripTrailingSlashes(p[..|p| - 1]) else p
  }

  /** The text after the last '/' of `p` (all of `p` when it has none). */
  function LastElement(p: string): (r: string)
    ensures '/' !in r
    ensures |r| <= |p| && r == p[|p| - |r|..]
    ensures p != [] && p[|p| - 1] != '/' ==> r != []
  {
    if p == [] || p[|p| - 1] == '/' then []
    else
      var q := p[..|p| - 1];
      var init := LastElement(q);
      assert init == p[|p| - 1 - |init|..|p| - 1] by {
        assert q[|q| - |init|..] == p[|p| - 1 - |init|..|p| - 1];
      }
      assert p[|p| - 1 - |init|..] == init + [p[|p| - 1]];
      init + [p[|p| - 1]]
  }

  /** A path without '/' is its own last element. */
  lemma {:induction false} LastElementWhole(p: string)
    requires '/' !in p
    ensures LastElement(p) == p
  {
    if p != [] {
      var init := p[..|p| - 1];
      assert '/' !in init by {
        assert forall c :: c in init ==> c in p;
      }
      LastElementWhole(init);
      assert p == init + [p[|p| - 1]];
    }
  }

  /**
   * `filepath.Base`: the last element of a path. Trailing slashes are
   * removed first; an empty path gives "." and a path of slashes gives "/".
   */
  function Base(p: string): (r: string)
    ensures r != []
    ensures r == "/" || '/' !in r
  {
    if p == [] then "."
    else
      var q := StripTrailingSlashes(p);
      if q == [] then "/" else LastElement(q)
  }

  /** A base name is its own base name. */
  lemma BaseIdempotent(p: string)
    ensures Base(Base(p)) == Base(p)
  {
    var b := Base(p);
    if b == "/" {
      assert StripTrailingSlashes(b) == [];
    } else {
      LastElementWhole(b);
    }
  }

  /** The base of `dir/name` is `name` whenever `name` is a non-empty element. */
  lemma {:induction false} BaseOfJoin(dir: string, name: string)
    requires name != [] && '/' !in name
    ensures Base(dir + "/" + name) == name
  {
    var p := dir + "/" + name;
    assert p[|p| - 1] == name[|name| - 1];
    assert StripTrailingSlashes(p) == p;
    LastElementOfJoin(dir, name);
  }

  lemma {:induction false} LastElementOfJoin(dir: string, name: string)
    requires '/' !in name
    ensures LastElement(dir + "/" + name) == name
  {
    var p := dir + "/" + name;
    if name == [] {
      assert p[|p| - 1] == '/';
    } else {
      var init := name[..|name| - 1];
      assert '/' !in init by {
        assert forall c :: c in init ==> c in name;
      }
      assert p[..|p| - 1] == dir + "/" + init;
      LastElementOfJoin(dir, init);
      assert p[|p| - 1] == name[|name| - 1] != '/';
      assert LastElement(p) == LastElement(p[..|p| - 1]) + [p[|p| - 1]];
      assert name == init + [name[|name| - 1]];
    }
  }

  /**
   * `filepath.Dir` for paths that `filepath.Clean` leaves alone: everything
   * before the last '/', "." when there is none, "/" for a top-level entry.
   */
  function Dir(p: string): (r: string)
    ensures r != []
  {
    var d := p[..|p| - |LastElement(p)|];
    if d == [] then "."
    else
      var s := StripTrailingSlashes(d);
      if s == [] then "/" else s
  }

  /** `filepath.Dir` of `dir/name` is `dir`, the inverse of joining. */
  lemma DirOfJoin(dir: string, name: string)
    requires dir != [] && dir[|dir| - 1] != '/'
    requires name != [] && '/' !in name
    ensures Dir(dir + "/" + name) == dir
  {
    var p := dir + "/" + name;
    LastElementOfJoin(dir, name);
    assert p[..|p| - |name|] == dir + "/";
    assert (dir + "/")[..|dir|] == dir;
    assert StripTrailingSlashes(dir) == dir;
    assert StripTrailingSlashes(dir + "/") == dir;
  }

  const MinInt64: int := -0x8000_0000_0000_0000
  const MaxInt64: int := 0x7FFF_FFFF_FFFF_FFFF

  predicate IsDigit(c: char) {
    '0' <= c <= '9'
  }

  predicate AllDigits(s: string) {
    forall i :: 0 <= i < |s| ==> IsDigit(s[i])
  }

  /** The decimal value of a string of digits. */
  function DigitsValue(s: string): nat
    requires AllDigits(s)
  {
    if s == [] then 0 else DigitsValue(s[..|s| - 1]) * 10 + (s[|s| - 1] as int - '0' as int)
  }

  /** Leading zeros do not change the value of a digit string. */
  lemma {:induction false} DigitsValueLeadingZero(s: string)
    requires AllDigits(s)
    ensures AllDigits("0" + s) && DigitsValue("0" + s) == DigitsValue(s)
  {
    var z := "0" + s;
    if s != [] {
      assert z[..|z| - 1] == "0" + s[..|s| - 1];
      DigitsValueLeadingZero(s[..|s| - 1]);
    }
  }

  /**
   * `strconv.Atoi` on a 64-bit platform: an optional '+' or '-' followed by
   * one or more decimal digits, whose value fits in an `int`; anything else
   * (including an out-of-range value) is an error.
   */
  function Atoi(s: string): (r: Option<int>)
    ensures r.Some? ==> s != [] && MinInt64 <= r.value <= MaxInt64
    ensures s != [] && AllDigits(s) && DigitsValue(s) <= MaxInt64 ==> r == Some(DigitsValue(s))
    ensures s == [] || (s[0] != '+' && s[0] != '-' && !IsDigit(s[0])) ==> r == None
    ensures |s| >= 2 && s[0] == '+' && AllDigits(s[1..]) ==>
              r == (if DigitsValue(s[1..]) <= MaxInt64 then Some(DigitsValue(s[1..])) else None)
    ensures |s| >= 2 && s[0] == '-' && AllDigits(s[1..]) ==>
              r == (if DigitsValue(s[1..]) <= -MinInt64 then Some(-(DigitsValue(s[1..]) as int)) else None)
    ensures s != [] && AllDigits(s) && DigitsValue(s) > MaxInt64 ==> r == None
    ensures r.Some? ==> (s != [] && AllDigits(s)) || (|s| >= 2 && (s[0] == '+' || s[0] == '-') && AllDigits(s[1..]))
  {
    var negative := s != [] && s[0] == '-';
    var digits := if s != [] && (s[0] == '+' || s[0] == '-') then s[1..] else s;
    if digits == [] || !AllDigits(digits) then None
    else
      var v: int := DigitsValue(digits);
      var n := if negative then -v else v;
      if MinInt64 <= n <= MaxInt64 then Some(n) else None
  }
}
