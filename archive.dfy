/**
 * Assembly of a package archive, `getArch` and `addFileToTar`
 * (pacm/create..go:86-204). The file system is a map from a walk root to
 * the paths `filepath.Walk` visits under it, in walk order; glob matching is
 * a parameter; the tar stream is the sequence of entries written to it.
 */
module Archive {
  import opened Wrappers
  import opened GoLib
  import opened Version
  import opened Config

  type Bytes = seq<bv8>

  /** One tar entry: its header name and the file's bytes. */
  datatype Entry = Entry(name: string, content: Bytes)

  /** A path visited by `filepath.Walk`, as its callback sees it. */
  datatype Visit =
    | WalkError(path: string)
      /** A file; `content` is `None` when it cannot be opened. */
    | File(path: string, content: Option<Bytes>)
    | Directory(path: string)

  /** The walk of `root`: a root that does not exist is reported to the callback as an error. */
  function Visits(fs: map<string, seq<Visit>>, root: string): (vs: seq<Visit>)
    ensures root !in fs ==> vs == [WalkError(root)]
  {
    if root in fs then fs[root] else [WalkError(root)]
  }

  /** What `filepath.Match(pattern, name)` returns: true, false, or `ErrBadPattern`. */
  datatype MatchResult = Matched | NoMatch | BadPattern

  /** Why an archive could not be completed. */
  datatype Failure =
    | Canceled
    | WalkFailed(path: string)
    | BadExclude(pattern: string)
    | OpenFailed(path: string)

  /** The archive file name of pacm/create..go:107. */
  function ArchiveFileName(name: string, ver: string): (r: string)
    ensures HasSuffix(r, ArchiveSuffix)
    ensures HasPrefix(r, name + "-")
    ensures TrimSuffix(TrimPrefix(r, name + "-"), ArchiveSuffix) == ver
  {
    var r := name + "-" + ver + ArchiveSuffix;
    assert r[|r| - |ArchiveSuffix|..] == ArchiveSuffix;
    assert r[..|name + "-"|] == name + "-";
    TrimArchiveName(name, ver);
    r
  }

  /** The name of the meta entry of pacm/create..go:165. */
  function MetaPath(name: string, ver: string): (r: string)
    ensures HasPrefix(r, "meta-") && HasSuffix(r, ".json")
  {
    var r := "meta-" + name + "-" + ver + ".json";
    assert r[..5] == "meta-";
    assert r[|r| - 5..] == ".json";
    r
  }

  /**
   * The archive uploaded to `<remoteDir>/<name>-<ver>.tar.gz`
   * (pacm/create..go:74) yields back the version it was built for.
   */
  lemma UploadedArchiveVersion(remoteDir: string, name: string, ver: string)
    requires ver != [] && '/' !in name && '/' !in ver
    ensures VersionFromArchiveName(remoteDir + "/" + ArchiveFileName(name, ver), name) == Ok(ver)
  {
    assert remoteDir + "/" + ArchiveFileName(name, ver) == remoteDir + "/" + name + "-" + ver + ArchiveSuffix;
    ArchiveNameRoundTrip(remoteDir, name, ver);
  }

  // ---------------------------------------------------------------------
  // The walk callback's filter (pacm/create..go:132-157)

  /** The outcome of the exclude patterns for one base name. */
  datatype Exclusion = Kept | Excluded(pattern: string) | Malformed(pattern: string)

  /**
   * The exclude loop of pacm/create..go:140-148: the first pattern that
   * matches excludes the file, the first malformed one before that aborts.
   */
  function ExcludeScan(patterns: seq<string>, name: string, glob: (string, string) -> MatchResult): (x: Exclusion)
    ensures x.Excluded? ==> x.pattern in patterns && glob(x.pattern, name) == Matched
    ensures x.Malformed? ==> x.pattern in patterns && glob(x.pattern, name) == BadPattern
  {
    if patterns == [] then Kept
    else match glob(patterns[0], name)
      case Matched => Excluded(patterns[0])
      case BadPattern => Malformed(patterns[0])
      case NoMatch => ExcludeScan(patterns[1..], name, glob)
  }

  /** A file passes the exclude patterns exactly when none of them matches or is malformed. */
  lemma {:induction false} KeptIff(patterns: seq<string>, name: string, glob: (string, string) -> MatchResult)
    ensures ExcludeScan(patterns, name, glob) == Kept <==>
            forall p :: p in patterns ==> glob(p, name) == NoMatch
  {
    if patterns != [] {
      KeptIff(patterns[1..], name, glob);
      assert patterns == [patterns[0]] + patterns[1..];
    }
  }

  /** Exclusion goes to the first pattern that does not report "no match". */
  lemma {:induction false} FirstDecidingPattern(patterns: seq<string>, name: string, glob: (string, string) -> MatchResult, k: nat)
    requires k < |patterns| && glob(patterns[k], name) != NoMatch
    requires forall j :: 0 <= j < k ==> glob(patterns[j], name) == NoMatch
    ensures ExcludeScan(patterns, name, glob) ==
            if glob(patterns[k], name) == Matched then Excluded(patterns[k]) else Malformed(patterns[k])
  {
    if k > 0 {
      assert glob(patterns[0], name) == NoMatch;
      FirstDecidingPattern(patterns[1..], name, glob, k - 1);
    }
  }

  /** What the callback does with one visited path. */
  datatype Decision = Skip | Include | Fail(failure: Failure)

  /**
   * The walk callback up to `addFileToTar` (pacm/create..go:132-157):
   * errors abort, directories are skipped, the exclude patterns are tried
   * on the base name first, then the mask `filepath.Base(target.Path)`; the
   * mask's match is checked before its error, so a malformed mask skips.
   */
  function Decide(target: Target, v: Visit, glob: (string, string) -> MatchResult): (d: Decision)
    ensures v.WalkError? <==> d == Fail(WalkFailed(v.path))
    ensures v.Directory? ==> d == Skip
    ensures d == Include ==> v.File? && glob(Base(target.path), Base(v.path)) == Matched
  {
    match v
    case WalkError(p) => Fail(WalkFailed(p))
    case Directory(_) => Skip
    case File(p, _) =>
      match ExcludeScan(Split(target.exclude, ','), Base(p), glob)
      case Excluded(_) => Skip
      case Malformed(pattern) => Fail(BadExclude(pattern))
      case Kept => if glob(Base(target.path), Base(p)) == Matched then Include else Skip
  }

  /**
   * A file is included exactly when no exclude pattern matches its base name
   * or is malformed, and the mask matches it.
   */
  lemma IncludeIff(target: Target, path: string, content: Option<Bytes>, glob: (string, string) -> MatchResult)
    ensures Decide(target, File(path, content), glob) == Include <==>
            (forall p :: p in Split(target.exclude, ',') ==> glob(p, Base(path)) == NoMatch) &&
            glob(Base(target.path), Base(path)) == Matched
  {
    KeptIff(Split(target.exclude, ','), Base(path), glob);
  }

  /** A file an exclude pattern matches is skipped, whatever the mask says. */
  lemma ExcludeWins(target: Target, path: string, content: Option<Bytes>, glob: (string, string) -> MatchResult, k: nat)
    requires k < |Split(target.exclude, ',')|
    requires glob(Split(target.exclude, ',')[k], Base(path)) == Matched
    requires forall j :: 0 <= j < k ==> glob(Split(target.exclude, ',')[j], Base(path)) == NoMatch
    ensures Decide(target, File(path, content), glob) == Skip
  {
    FirstDecidingPattern(Split(target.exclude, ','), Base(path), glob, k);
  }

  /** A malformed exclude pattern reached before any match aborts the walk. */
  lemma MalformedExcludeAborts(target: Target, path: string, content: Option<Bytes>, glob: (string, string) -> MatchResult, k: nat)
    requires k < |Split(target.exclude, ',')|
    requires glob(Split(target.exclude, ',')[k], Base(path)) == BadPattern
    requires forall j :: 0 <= j < k ==> glob(Split(target.exclude, ',')[j], Base(path)) == NoMatch
    ensures Decide(target, File(path, content), glob) == Fail(BadExclude(Split(target.exclude, ',')[k]))
  {
    FirstDecidingPattern(Split(target.exclude, ','), Base(path), glob, k);
  }

  /** A malformed mask does not abort: the file is skipped. */
  lemma MalformedMaskSkips(target: Target, path: string, content: Option<Bytes>, glob: (string, string) -> MatchResult)
    requires forall p :: p in Split(target.exclude, ',') ==> glob(p, Base(path)) == NoMatch
    requires glob(Base(target.path), Base(path)) == BadPattern
    ensures Decide(target, File(path, content), glob) == Skip
  {
    KeptIff(Split(target.exclude, ','), Base(path), glob);
  }

  /**
   * An empty exclude list splits to the single empty pattern, which
   * `filepath.Match` matches against no non-empty name: then the mask alone
   * decides.
   */
  lemma EmptyExclude(target: Target, path: string, content: Option<Bytes>, glob: (string, string) -> MatchResult)
    requires target.exclude == ""
    requires glob("", Base(path)) == NoMatch
    ensures Split(target.exclude, ',') == [""]
    ensures Decide(target, File(path, content), glob) ==
            if glob(Base(target.path), Base(path)) == Matched then Include else Skip
  {
    assert ExcludeScan([""], Base(path), glob) == ExcludeScan([], Base(path), glob);
  }

  // ---------------------------------------------------------------------
  // The walk of one target (pacm/create..go:132-159)

  /** What one visit does to the archive: nothing, one more entry, or the end of the walk. */
  datatype Effect = Nothing | Added(entry: Entry) | Stopped(failure: Failure)

  /**
   * The callback followed by `addFileToTar`: an included file that cannot
   * be opened stops the walk, one that can becomes an entry named by its
   * walked path (pacm/create..go:195), not by its base name.
   */
  function VisitEffect(target: Target, v: Visit, glob: (string, string) -> MatchResult): (e: Effect)
    ensures e.Added? ==> v == File(e.entry.name, Some(e.entry.content))
    ensures v.Directory? ==> e == Nothing
    ensures v.WalkError? ==> e == Stopped(WalkFailed(v.path))
  {
    match Decide(target, v, glob)
    case Skip => Nothing
    case Fail(f) => Stopped(f)
    case Include => if v.content.Some? then Added(Entry(v.path, v.content.value)) else Stopped(OpenFailed(v.path))
  }

  /** The effects of the visits, in walk order. */
  function Effects(target: Target, visits: seq<Visit>, glob: (string, string) -> MatchResult): (es: seq<Effect>)
    ensures |es| == |visits|
    ensures forall j {:trigger es[j]} :: 0 <= j < |es| ==> es[j] == VisitEffect(target, visits[j], glob)
  {
    seq(|visits|, j requires 0 <= j < |visits| => VisitEffect(target, visits[j], glob))
  }

  /** The entries a walk adds and the error it stops with. */
  datatype Outcome = Outcome(entries: seq<Entry>, err: Option<Failure>)

  /** One effect applied to the outcome so far: nothing happens once the walk has stopped. */
  function Apply(o: Outcome, x: Effect): (r: Outcome)
    ensures o.err.Some? ==> r == o
    ensures o.err.None? ==> r.entries == o.entries + (if x.Added? then [x.entry] else [])
    ensures o.err.None? ==> (r.err.Some? <==> x.Stopped?)
  {
    if o.err.Some? then o
    else match x
      case Nothing => o
      case Added(e) => Outcome(o.entries + [e], None)
      case Stopped(f) => Outcome(o.entries, Some(f))
  }

  /**
   * Effects applied one after the other: the first that stops the walk ends
   * it, with the entries added before it left in the archive.
   */
  function Run(es: seq<Effect>): (o: Outcome)
    decreases |es|
    ensures |o.entries| <= |es|
  {
    if es == [] then Outcome([], None) else Apply(Run(es[..|es| - 1]), es[|es| - 1])
  }

  /** The entries of the effects that add one, in order. */
  function AddedEntries(es: seq<Effect>): (entries: seq<Entry>)
    decreases |es|
    ensures |entries| <= |es|
  {
    if es == [] then []
    else (if es[0].Added? then [es[0].entry] else []) + AddedEntries(es[1..])
  }

  /** No effect stops the walk. */
  ghost predicate Clean(es: seq<Effect>) {
    forall i :: 0 <= i < |es| ==> !es[i].Stopped?
  }

  lemma {:induction false} AddedEntriesAppend(es: seq<Effect>, x: Effect)
    ensures AddedEntries(es + [x]) == AddedEntries(es) + AddedEntries([x])
  {
    if es != [] {
      assert (es + [x])[1..] == es[1..] + [x];
      AddedEntriesAppend(es[1..], x);
    }
  }

  /** A run that nothing stops adds exactly the entries of its effects, in order. */
  lemma {:induction false} CleanRun(es: seq<Effect>)
    requires Clean(es)
    ensures Run(es) == Outcome(AddedEntries(es), None)
  {
    if es != [] {
      var init := es[..|es| - 1];
      var x := es[|es| - 1];
      assert !x.Stopped?;
      CleanRun(init);
      assert es == init + [x];
      AddedEntriesAppend(init, x);
    }
  }

  /** Once a prefix has stopped the run, the rest of the effects change nothing. */
  lemma {:induction false} StoppedRunIsFinal(es: seq<Effect>, k: nat)
    requires k <= |es| && Run(es[..k]).err.Some?
    ensures Run(es) == Run(es[..k])
    decreases |es|
  {
    if k < |es| {
      var init := es[..|es| - 1];
      assert init[..k] == es[..k];
      StoppedRunIsFinal(init, k);
    } else {
      assert es[..k] == es;
    }
  }

  /** One more effect is applied to the run so far. */
  lemma RunStep(es: seq<Effect>, k: nat)
    requires k < |es|
    ensures Run(es[..k + 1]) == Apply(Run(es[..k]), es[k])
  {
    var upto := es[..k + 1];
    assert upto[..|upto| - 1] == es[..k];
  }

  /**
   * A run stops at its first stopping effect `i`, with the entries added
   * before it and that effect's failure.
   */
  lemma RunStopsAtFirstFailure(es: seq<Effect>, i: nat)
    requires i < |es| && Clean(es[..i]) && es[i].Stopped?
    ensures Run(es) == Outcome(AddedEntries(es[..i]), Some(es[i].failure))
  {
    var upto := es[..i + 1];
    assert upto[..|upto| - 1] == es[..i];
    CleanRun(es[..i]);
    StoppedRunIsFinal(es, i + 1);
  }

  /** The first effect at or after `i` that stops the run. */
  ghost function FirstStop(es: seq<Effect>, i: nat): (k: nat)
    requires i <= |es| && Clean(es[..i])
    requires exists j :: i <= j < |es| && es[j].Stopped?
    decreases |es| - i
    ensures i <= k < |es| && Clean(es[..k]) && es[k].Stopped?
  {
    if es[i].Stopped? then i
    else
      assert Clean(es[..i + 1]) by {
        forall j | 0 <= j < i + 1 ensures !es[j].Stopped? {
          if j < i {
            assert es[..i][j] == es[j];
          }
        }
      }
      FirstStop(es, i + 1)
  }

  /** A run ends without error exactly when no effect stops it. */
  lemma RunSucceedsIff(es: seq<Effect>)
    ensures Run(es).err.None? <==> Clean(es)
  {
    if Clean(es) {
      CleanRun(es);
    } else {
      assert es[..0] == [];
      var k := FirstStop(es, 0);
      RunStopsAtFirstFailure(es, k);
    }
  }

  /** Every entry of a run was added by one of its effects. */
  lemma {:induction false} RunEntriesAreAdded(es: seq<Effect>)
    ensures forall e :: e in Run(es).entries ==> Added(e) in es
    decreases |es|
  {
    if es != [] {
      var init := es[..|es| - 1];
      RunEntriesAreAdded(init);
      assert forall x :: x in init ==> x in es;
    }
  }

  /** The walk of one target, from its visits. */
  function WalkOutcome(target: Target, visits: seq<Visit>, glob: (string, string) -> MatchResult): Outcome {
    Run(Effects(target, visits, glob))
  }

  /** Every entry a walk adds is a walked file, named by its full path and holding its bytes. */
  lemma WalkAddsWalkedFiles(target: Target, visits: seq<Visit>, glob: (string, string) -> MatchResult)
    ensures forall e :: e in WalkOutcome(target, visits, glob).entries ==> File(e.name, Some(e.content)) in visits
  {
    var es := Effects(target, visits, glob);
    RunEntriesAreAdded(es);
    forall e | e in Run(es).entries ensures File(e.name, Some(e.content)) in visits {
      var j :| 0 <= j < |es| && es[j] == Added(e);
      assert visits[j] == File(e.name, Some(e.content));
    }
  }

  // ---------------------------------------------------------------------
  // The tar writer

  /** The tar stream being written: the entries so far, in order. */
  class TarWriter {
    var entries: seq<Entry>

    constructor ()
      ensures entries == []
    {
      entries := [];
    }

    /**
     * `addFileToTar` (pacm/create..go:184-204): a file that cannot be
     * opened writes nothing and reports an error; otherwise one entry named
     * by the given path and holding the file's bytes is appended.
     */
    method AddFile(path: string, content: Option<Bytes>) returns (err: Option<Failure>)
      modifies this
      ensures content.Some? ==> entries == old(entries) + [Entry(path, content.value)] && err.None?
      ensures content.None? ==> entries == old(entries) && err == Some(OpenFailed(path))
    {
      if content.None? {
        err := Some(OpenFailed(path));
        return;
      }
      entries := entries + [Entry(path, content.value)];
      err := None;
    }
  }

  lemma VisitEffectUnfold(target: Target, v: Visit, glob: (string, string) -> MatchResult)
    ensures VisitEffect(target, v, glob) ==
            match Decide(target, v, glob)
            case Skip => Nothing
            case Fail(f) => Stopped(f)
            case Include => if v.content.Some? then Added(Entry(v.path, v.content.value)) else Stopped(OpenFailed(v.path))
  {
  }

  /** `filepath.Walk` of one target with the callback of pacm/create..go:132-159. */
  method WalkTarget(tw: TarWriter, target: Target, visits: seq<Visit>, glob: (string, string) -> MatchResult)
    returns (err: Option<Failure>)
    modifies tw
    ensures tw.entries == old(tw.entries) + WalkOutcome(target, visits, glob).entries
    ensures err == WalkOutcome(target, visits, glob).err
  {
    ghost var start := tw.entries;
    ghost var es := Effects(target, visits, glob);
    err := None;
    for k := 0 to |visits|
      invariant tw.entries == start + Run(es[..k]).entries
      invariant Run(es[..k]).err.None? && err.None?
    {
      RunStep(es, k);
      var v := visits[k];
      if es[k].Stopped? {
        StoppedRunIsFinal(es, k + 1);
      }
      VisitEffectUnfold(target, v, glob);
      assert es[k] == VisitEffect(target, v, glob);
      match Decide(target, v, glob) {
        case Skip =>
        case Fail(f) =>
          err := Some(f);
          return;
        case Include =>
          err := tw.AddFile(v.path, v.content);
          if err.Some? {
            return;
          }
      }
    }
    assert es[..|visits|] == es;
  }

  // ---------------------------------------------------------------------
  // getArch (pacm/create..go:86-182)

  /** `ctx.Done()` is seen by the check before target `t` (pacm/create..go:122-127); once done, it stays done. */
  predicate CanceledBefore(cancelAt: Option<nat>, t: nat) {
    cancelAt.Some? && cancelAt.value <= t
  }

  /**
   * What target number `t` adds: nothing and a cancellation error when the
   * context is done, otherwise the walk of `filepath.Dir(target.Path)`.
   */
  function TargetOutcome(target: Target, t: nat, fs: map<string, seq<Visit>>, cancelAt: Option<nat>,
                         glob: (string, string) -> MatchResult): Outcome
  {
    if CanceledBefore(cancelAt, t) then Outcome([], Some(Canceled))
    else WalkOutcome(target, Visits(fs, Dir(target.path)), glob)
  }

  /** Every entry a target adds is a file of its walk, under the walked path. */
  lemma TargetAddsWalkedFiles(target: Target, t: nat, fs: map<string, seq<Visit>>, cancelAt: Option<nat>,
                              glob: (string, string) -> MatchResult)
    ensures forall e :: e in TargetOutcome(target, t, fs, cancelAt, glob).entries ==>
              File(e.name, Some(e.content)) in Visits(fs, Dir(target.path))
  {
    WalkAddsWalkedFiles(target, Visits(fs, Dir(target.path)), glob);
  }

  /** The outcomes of the targets, in declared order. */
  function TargetOutcomes(targets: seq<Target>, fs: map<string, seq<Visit>>, cancelAt: Option<nat>,
                          glob: (string, string) -> MatchResult): (rs: seq<Outcome>)
    ensures |rs| == |targets|
    ensures forall t {:trigger rs[t]} :: 0 <= t < |rs| ==> rs[t] == TargetOutcome(targets[t], t, fs, cancelAt, glob)
  {
    seq(|targets|, t requires 0 <= t < |targets| => TargetOutcome(targets[t], t, fs, cancelAt, glob))
  }

  /** One more target's outcome after the outcome so far: nothing happens after an error. */
  function Then(o: Outcome, r: Outcome): (c: Outcome)
    ensures o.err.Some? ==> c == o
    ensures o.err.None? ==> c == Outcome(o.entries + r.entries, r.err)
  {
    if o.err.Some? then o else Outcome(o.entries + r.entries, r.err)
  }

  /** Target outcomes one after the other: the first error ends the loop, keeping what was added. */
  function Chain(rs: seq<Outcome>): (o: Outcome)
    decreases |rs|
  {
    if rs == [] then Outcome([], None) else Then(Chain(rs[..|rs| - 1]), rs[|rs| - 1])
  }

  /** The entries of all outcomes, in order. */
  function Concat(rs: seq<Outcome>): (entries: seq<Entry>)
    decreases |rs|
  {
    if rs == [] then [] else rs[0].entries + Concat(rs[1..])
  }

  /** No outcome is an error. */
  ghost predicate AllSucceed(rs: seq<Outcome>) {
    forall t :: 0 <= t < |rs| ==> rs[t].err.None?
  }

  lemma {:induction false} ConcatAppend(rs: seq<Outcome>, r: Outcome)
    ensures Concat(rs + [r]) == Concat(rs) + r.entries
  {
    if rs == [] {
      assert Concat([r]) == r.entries + Concat([]);
    } else {
      assert (rs + [r])[1..] == rs[1..] + [r];
      ConcatAppend(rs[1..], r);
    }
  }

  /** Targets that all succeed add all their entries, target after target. */
  lemma {:induction false} SucceedingChain(rs: seq<Outcome>)
    requires AllSucceed(rs)
    ensures Chain(rs) == Outcome(Concat(rs), None)
  {
    if rs != [] {
      var init := rs[..|rs| - 1];
      assert rs[|rs| - 1].err.None?;
      SucceedingChain(init);
      assert rs == init + [rs[|rs| - 1]];
      ConcatAppend(init, rs[|rs| - 1]);
    }
  }

  /** Once the loop has stopped on an error, later targets change nothing. */
  lemma {:induction false} StoppedChainIsFinal(rs: seq<Outcome>, k: nat)
    requires k <= |rs| && Chain(rs[..k]).err.Some?
    ensures Chain(rs) == Chain(rs[..k])
    decreases |rs|
  {
    if k < |rs| {
      var init := rs[..|rs| - 1];
      assert init[..k] == rs[..k];
      StoppedChainIsFinal(init, k);
    } else {
      assert rs[..k] == rs;
    }
  }

  /** One more target's outcome is added to the loop so far. */
  lemma ChainStep(rs: seq<Outcome>, t: nat)
    requires t < |rs|
    ensures Chain(rs[..t + 1]) == Then(Chain(rs[..t]), rs[t])
  {
    var upto := rs[..t + 1];
    assert upto[..|upto| - 1] == rs[..t];
  }

  /**
   * The first failing target `i` ends the loop: the archive keeps the
   * entries of the targets before it and what target `i` added before its
   * failure, and no later target is processed.
   */
  lemma ChainStopsAtFirstFailure(rs: seq<Outcome>, i: nat)
    requires i < |rs| && AllSucceed(rs[..i]) && rs[i].err.Some?
    ensures Chain(rs) == Outcome(Concat(rs[..i]) + rs[i].entries, rs[i].err)
  {
    var upto := rs[..i + 1];
    assert upto[..|upto| - 1] == rs[..i];
    SucceedingChain(rs[..i]);
    StoppedChainIsFinal(rs, i + 1);
  }

  /** The first failing outcome at or after `i`. */
  ghost function FirstFailure(rs: seq<Outcome>, i: nat): (k: nat)
    requires i <= |rs| && AllSucceed(rs[..i])
    requires exists j :: i <= j < |rs| && rs[j].err.Some?
    decreases |rs| - i
    ensures i <= k < |rs| && AllSucceed(rs[..k]) && rs[k].err.Some?
  {
    if rs[i].err.Some? then i
    else
      assert AllSucceed(rs[..i + 1]) by {
        forall j | 0 <= j < i + 1 ensures rs[j].err.None? {
          if j < i {
            assert rs[..i][j] == rs[j];
          }
        }
      }
      FirstFailure(rs, i + 1)
  }

  /** The loop ends without error exactly when every target succeeds. */
  lemma ChainSucceedsIff(rs: seq<Outcome>)
    ensures Chain(rs).err.None? <==> AllSucceed(rs)
  {
    if AllSucceed(rs) {
      SucceedingChain(rs);
    } else {
      assert rs[..0] == [];
      var k := FirstFailure(rs, 0);
      ChainStopsAtFirstFailure(rs, k);
    }
  }

  /** The meta entry: the configuration file's bytes, verbatim (pacm/create..go:165-179). */
  function MetaEntry(config: PackageConfig, configData: Bytes): (e: Entry)
    ensures e.content == configData && HasPrefix(e.name, "meta-")
  {
    Entry(MetaPath(config.name, config.ver), configData)
  }

  /**
   * The archive `getArch` writes and the error it returns: the targets in
   * declared order, then the meta entry last when no target failed.
   */
  function Build(config: PackageConfig, configData: Bytes, fs: map<string, seq<Visit>>, cancelAt: Option<nat>,
                 glob: (string, string) -> MatchResult): (o: Outcome)
    ensures o.err.None? ==> |o.entries| >= 1 && o.entries[|o.entries| - 1] == MetaEntry(config, configData)
  {
    var o := Chain(TargetOutcomes(config.targets, fs, cancelAt, glob));
    if o.err.Some? then o else Outcome(o.entries + [MetaEntry(config, configData)], None)
  }

  /** Target `t` completes: the context was not done before it and nothing stopped its walk. */
  ghost predicate TargetSucceeds(config: PackageConfig, fs: map<string, seq<Visit>>, cancelAt: Option<nat>,
                                 glob: (string, string) -> MatchResult, t: nat)
    requires t < |config.targets|
  {
    !CanceledBefore(cancelAt, t) &&
    Clean(Effects(config.targets[t], Visits(fs, Dir(config.targets[t].path)), glob))
  }

  lemma TargetSucceedsIff(config: PackageConfig, fs: map<string, seq<Visit>>, cancelAt: Option<nat>,
                          glob: (string, string) -> MatchResult, t: nat)
    requires t < |config.targets|
    ensures TargetOutcome(config.targets[t], t, fs, cancelAt, glob).err.None? <==>
            TargetSucceeds(config, fs, cancelAt, glob, t)
  {
    RunSucceedsIff(Effects(config.targets[t], Visits(fs, Dir(config.targets[t].path)), glob));
  }

  /** `getArch` returns no error exactly when every target completes. */
  lemma BuildSucceedsIff(config: PackageConfig, configData: Bytes, fs: map<string, seq<Visit>>, cancelAt: Option<nat>,
                         glob: (string, string) -> MatchResult)
    ensures Build(config, configData, fs, cancelAt, glob).err.None? <==>
            forall t :: 0 <= t < |config.targets| ==> TargetSucceeds(config, fs, cancelAt, glob, t)
  {
    var rs := TargetOutcomes(config.targets, fs, cancelAt, glob);
    ChainSucceedsIff(rs);
    forall t | 0 <= t < |config.targets|
      ensures rs[t].err.None? <==> TargetSucceeds(config, fs, cancelAt, glob, t)
    {
      TargetSucceedsIff(config, fs, cancelAt, glob, t);
    }
  }

  /** The entries of the files that pass the filters of `targets`, target after target, in walk order. */
  function Collected(targets: seq<Target>, fs: map<string, seq<Visit>>, glob: (string, string) -> MatchResult): (entries: seq<Entry>)
    decreases |targets|
  {
    if targets == [] then []
    else AddedEntries(Effects(targets[0], Visits(fs, Dir(targets[0].path)), glob)) + Collected(targets[1..], fs, glob)
  }

  /** A target that completes adds exactly the entries of its surviving files. */
  lemma SucceedingTarget(target: Target, t: nat, fs: map<string, seq<Visit>>, cancelAt: Option<nat>,
                         glob: (string, string) -> MatchResult)
    requires TargetOutcome(target, t, fs, cancelAt, glob).err.None?
    ensures TargetOutcome(target, t, fs, cancelAt, glob).entries ==
            AddedEntries(Effects(target, Visits(fs, Dir(target.path)), glob))
  {
    var es := Effects(target, Visits(fs, Dir(target.path)), glob);
    RunSucceedsIff(es);
    CleanRun(es);
  }

  lemma {:induction false} ConcatCollected(targets: seq<Target>, fs: map<string, seq<Visit>>, cancelAt: Option<nat>,
                                           glob: (string, string) -> MatchResult, rs: seq<Outcome>, from: nat)
    requires |rs| == |targets| && AllSucceed(rs)
    requires forall t :: 0 <= t < |rs| ==> rs[t] == TargetOutcome(targets[t], from + t, fs, cancelAt, glob)
    ensures Concat(rs) == Collected(targets, fs, glob)
    decreases |rs|
  {
    if rs != [] {
      assert rs[0] == TargetOutcome(targets[0], from, fs, cancelAt, glob);
      assert rs[0].err.None?;
      SucceedingTarget(targets[0], from, fs, cancelAt, glob);
      var rest := rs[1..];
      forall t | 0 <= t < |rest|
        ensures rest[t] == TargetOutcome(targets[1..][t], from + 1 + t, fs, cancelAt, glob)
      {
        assert rest[t] == rs[t + 1];
      }
      ConcatCollected(targets[1..], fs, cancelAt, glob, rest, from + 1);
    }
  }

  /**
   * A successful `getArch` archives the surviving files of the targets in
   * declared order, each target's in walk order, then the meta entry.
   */
  lemma BuildEntries(config: PackageConfig, configData: Bytes, fs: map<string, seq<Visit>>, cancelAt: Option<nat>,
                     glob: (string, string) -> MatchResult)
    requires Build(config, configData, fs, cancelAt, glob).err.None?
    ensures Build(config, configData, fs, cancelAt, glob).entries ==
            Collected(config.targets, fs, glob) + [MetaEntry(config, configData)]
  {
    var rs := TargetOutcomes(config.targets, fs, cancelAt, glob);
    ChainSucceedsIff(rs);
    SucceedingChain(rs);
    ConcatCollected(config.targets, fs, cancelAt, glob, rs, 0);
  }

  /**
   * A failing target `i` ends `getArch` with its error: the archive keeps
   * what the targets before it and its own walk added, no later target is
   * processed and no meta entry is written.
   */
  lemma BuildStopsAtFirstFailure(config: PackageConfig, configData: Bytes, fs: map<string, seq<Visit>>, cancelAt: Option<nat>,
                                 glob: (string, string) -> MatchResult, i: nat)
    requires i < |config.targets|
    requires forall t :: 0 <= t < i ==> TargetSucceeds(config, fs, cancelAt, glob, t)
    requires !TargetSucceeds(config, fs, cancelAt, glob, i)
    ensures var rs := TargetOutcomes(config.targets, fs, cancelAt, glob);
            Build(config, configData, fs, cancelAt, glob) == Outcome(Concat(rs[..i]) + rs[i].entries, rs[i].err) &&
            rs[i].err.Some?
  {
    var rs := TargetOutcomes(config.targets, fs, cancelAt, glob);
    forall t | 0 <= t < i ensures rs[..i][t].err.None? {
      TargetSucceedsIff(config, fs, cancelAt, glob, t);
    }
    TargetSucceedsIff(config, fs, cancelAt, glob, i);
    ChainStopsAtFirstFailure(rs, i);
  }

  /**
   * A context found done before target `c`, with the targets before it
   * complete, ends `getArch` with a cancellation error and the entries of
   * those targets.
   */
  lemma CancelStopsBuild(config: PackageConfig, configData: Bytes, fs: map<string, seq<Visit>>,
                         glob: (string, string) -> MatchResult, c: nat)
    requires c < |config.targets|
    requires forall t :: 0 <= t < c ==> TargetSucceeds(config, fs, Some(c), glob, t)
    ensures Build(config, configData, fs, Some(c), glob) ==
            Outcome(Concat(TargetOutcomes(config.targets, fs, Some(c), glob)[..c]), Some(Canceled))
  {
    var rs := TargetOutcomes(config.targets, fs, Some(c), glob);
    BuildStopsAtFirstFailure(config, configData, fs, Some(c), glob, c);
    assert rs[c] == Outcome([], Some(Canceled));
    assert Concat(rs[..c]) + [] == Concat(rs[..c]);
  }

  lemma CanceledTarget(target: Target, t: nat, fs: map<string, seq<Visit>>, cancelAt: Option<nat>,
                       glob: (string, string) -> MatchResult)
    requires CanceledBefore(cancelAt, t)
    ensures TargetOutcome(target, t, fs, cancelAt, glob) == Outcome([], Some(Canceled))
  {
  }

  lemma WalkedTarget(target: Target, t: nat, fs: map<string, seq<Visit>>, cancelAt: Option<nat>,
                     glob: (string, string) -> MatchResult, root: string)
    requires !CanceledBefore(cancelAt, t) && root == Dir(target.path)
    ensures TargetOutcome(target, t, fs, cancelAt, glob) == WalkOutcome(target, Visits(fs, root), glob)
  {
  }

  /**
   * The loop over the targets of pacm/create..go:121-164, writing into `tw`
   * from its start.
   */
  method AddTargets(tw: TarWriter, targets: seq<Target>, fs: map<string, seq<Visit>>, cancelAt: Option<nat>,
                    glob: (string, string) -> MatchResult)
    returns (err: Option<Failure>)
    modifies tw
    requires tw.entries == []
    ensures tw.entries == Chain(TargetOutcomes(targets, fs, cancelAt, glob)).entries
    ensures err == Chain(TargetOutcomes(targets, fs, cancelAt, glob)).err
  {
    ghost var rs := TargetOutcomes(targets, fs, cancelAt, glob);
    err := None;
    for t := 0 to |targets|
      invariant tw.entries == Chain(rs[..t]).entries
      invariant Chain(rs[..t]).err.None? && err.None?
    {
      ChainStep(rs, t);
      if rs[t].err.Some? {
        StoppedChainIsFinal(rs, t + 1);
      }
      assert rs[t] == TargetOutcome(targets[t], t, fs, cancelAt, glob);
      if CanceledBefore(cancelAt, t) {
        CanceledTarget(targets[t], t, fs, cancelAt, glob);
        err := Some(Canceled);
        assert tw.entries + [] == tw.entries;
        return;
      }
      var target := targets[t];
      var root := Dir(target.path);
      WalkedTarget(target, t, fs, cancelAt, glob, root);
      err := WalkTarget(tw, target, Visits(fs, root), glob);
      if err.Some? {
        return;
      }
    }
    assert rs[..|targets|] == rs;
  }

  /**
   * `getArch` (pacm/create..go:87-182) on a parsed configuration: the
   * archive is named `<Name>-<Ver>.tar.gz`, the targets are walked in
   * declared order into one tar writer, and the configuration's own bytes
   * are added last under `meta-<Name>-<Ver>.json`.
   */
  method GetArch(config: PackageConfig, configData: Bytes, fs: map<string, seq<Visit>>, cancelAt: Option<nat>,
                 glob: (string, string) -> MatchResult)
    returns (packName: string, archiveName: string, entries: seq<Entry>, err: Option<Failure>)
    ensures packName == config.name
    ensures archiveName == ArchiveFileName(config.name, config.ver)
    ensures entries == Build(config, configData, fs, cancelAt, glob).entries
    ensures err == Build(config, configData, fs, cancelAt, glob).err
  {
    packName := config.name;
    archiveName := config.name + "-" + config.ver + ".tar.gz";
    var tw := new TarWriter();
    err := AddTargets(tw, config.targets, fs, cancelAt, glob);
    if err.Some? {
      entries := tw.entries;
      return;
    }
    var metaPath := "meta-" + config.name + "-" + config.ver + ".json";
    err := tw.AddFile(metaPath, Some(configData));
    entries := tw.entries;
  }
}
