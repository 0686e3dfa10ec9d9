/** Per-file and per-member decisions of the folder packer and the two
    extractors: which files a folder archive takes and under what name, which
    ZIP and tar members are written, which failures are collected, and how the
    ZIP failure report is capped. */
module Archives {
  import opened Base
  import opened Paths

  // ---------------------------------------------------------------------------
  // Folder packing (`compress_folder`)
  // ---------------------------------------------------------------------------

  /** One path yielded by `input_folder.rglob("*")`: its segments relative to the
      folder, whether it is a regular file, its bytes, and whether `tar.add`
      succeeds on it (it can fail on an unreadable or vanished file). */
  datatype WalkEntry = WalkEntry(rel: seq<string>, isFile: bool, content: seq<Byte>, addable: bool)

  /** A record handed to the tar writer: its archive name and its bytes. */
  datatype TarEntry = TarEntry(name: string, content: seq<Byte>)

  /** A walked path is packed when it is a file and no exclude pattern is a
      substring of its path relative to the input folder. */
  predicate Selected(w: WalkEntry, excludes: seq<string>)
  {
    w.isFile && !AnyContains(excludes, Render(w.rel))
  }

  function KeepSelected(excludes: seq<string>): WalkEntry -> bool
  {
    w => Selected(w, excludes)
  }

  /** The files the folder walk collects, in walk order. */
  function SelectedFiles(walk: seq<WalkEntry>, excludes: seq<string>): seq<WalkEntry>
  {
    Filter(walk, KeepSelected(excludes))
  }

  /** `total_size`: the sum of the collected files' sizes. */
  function TotalSize(files: seq<WalkEntry>): (r: nat)
    ensures forall k :: 0 <= k < |files| ==> |files[k].content| <= r
  {
    if files == [] then 0 else TotalSize(files[..|files| - 1]) + |files[|files| - 1].content|
  }

  /** The collection loop of `compress_folder`. */
  method SelectFiles(walk: seq<WalkEntry>, excludes: seq<string>)
    returns (files: seq<WalkEntry>, totalSize: nat)
    ensures files == SelectedFiles(walk, excludes)
    ensures totalSize == TotalSize(files)
  {
    files, totalSize := [], 0;
    for i := 0 to |walk|
      invariant files == SelectedFiles(walk[..i], excludes)
      invariant totalSize == TotalSize(files)
    {
      FilterSnoc(walk[..i], walk[i], KeepSelected(excludes));
      assert walk[..i + 1] == walk[..i] + [walk[i]];
      if Selected(walk[i], excludes) {
        assert (files + [walk[i]])[..|files|] == files;
        files := files + [walk[i]];
        totalSize := totalSize + |walk[i].content|;
      }
    }
    assert walk[..|walk|] == walk;
  }

  /** A walked path is packed exactly when it is a file whose relative path
      contains none of the exclude patterns. */
  lemma SelectionIff(walk: seq<WalkEntry>, excludes: seq<string>, w: WalkEntry)
    ensures w in SelectedFiles(walk, excludes) <==>
      w in walk && w.isFile && forall k :: 0 <= k < |excludes| ==> !Contains(Render(w.rel), excludes[k])
  {
    FilterMembership(walk, KeepSelected(excludes), w);
  }

  /** The empty pattern is a substring of every path: it excludes everything. */
  lemma EmptyPatternExcludesAll(walk: seq<WalkEntry>, excludes: seq<string>)
    requires "" in excludes
    ensures SelectedFiles(walk, excludes) == []
  {
    var k :| 0 <= k < |excludes| && excludes[k] == "";
    if SelectedFiles(walk, excludes) != [] {
      var w := SelectedFiles(walk, excludes)[0];
      SelectionIff(walk, excludes, w);
    }
  }

  /** What `relative_to(input_folder.parent)` keeps of the folder itself: its
      name, or nothing for a folder path without one. */
  function FolderTail(folderName: string): seq<string>
  {
    if folderName == "" then [] else [folderName]
  }

  /** `str(file_path.relative_to(input_folder.parent))`, for a folder whose
      `.name` is `folderName`. */
  function ArcName(folderName: string, rel: seq<string>): string
  {
    Render(FolderTail(folderName) + rel)
  }

  /** The archive name is the folder's own name, a separator, then the file's
      path inside the folder; so extraction recreates the folder. */
  lemma ArcNameUnderFolder(folderName: string, rel: seq<string>)
    requires folderName != "" && rel != []
    ensures ArcName(folderName, rel) == folderName + [SEP] + Render(rel)
  {
    RenderCons(folderName, rel);
  }

  /** The record `tar.add` writes for a collected file. */
  function EntryOf(folderName: string, w: WalkEntry): TarEntry
  {
    TarEntry(ArcName(folderName, w.rel), w.content)
  }

  /** The records written by the packing loop: one per collected file that
      `tar.add` accepts, in order. */
  function Packed(folderName: string, files: seq<WalkEntry>): (r: seq<TarEntry>)
    ensures |r| <= |files|
  {
    if files == [] then []
    else
      var w := files[|files| - 1];
      Packed(folderName, files[..|files| - 1]) + (if w.addable then [EntryOf(folderName, w)] else [])
  }

  /** The packing loop of `compress_folder`: `files_processed` counts the adds
      that succeeded; a failed add is logged and skipped. */
  method AddFiles(folderName: string, files: seq<WalkEntry>)
    returns (entries: seq<TarEntry>, filesProcessed: nat)
    ensures entries == Packed(folderName, files)
    ensures filesProcessed == |entries| <= |files|
  {
    entries, filesProcessed := [], 0;
    for i := 0 to |files|
      invariant entries == Packed(folderName, files[..i])
      invariant filesProcessed == |entries|
    {
      assert files[..i + 1][..i] == files[..i];
      if files[i].addable {
        entries := entries + [EntryOf(folderName, files[i])];
        filesProcessed := filesProcessed + 1;
      }
    }
    assert files[..|files|] == files;
  }

  /** A record is in the archive exactly when some collected file that `tar.add`
      accepts produced it, under its folder-prefixed name and with its bytes. */
  lemma {:induction false} PackedIff(folderName: string, files: seq<WalkEntry>, e: TarEntry)
    ensures e in Packed(folderName, files) <==>
      exists w :: w in files && w.addable && e == EntryOf(folderName, w)
    decreases |files|
  {
    if files != [] {
      var init, w := files[..|files| - 1], files[|files| - 1];
      PackedIff(folderName, init, e);
      assert files == init + [w];
      if e in Packed(folderName, files) && e !in Packed(folderName, init) {
        assert w in files;
      }
      if exists v :: v in files && v.addable && e == EntryOf(folderName, v) {
        var v :| v in files && v.addable && e == EntryOf(folderName, v);
        if v != w { assert v in init; }
      }
    }
  }

  // ---------------------------------------------------------------------------
  // Member extraction (`extract_zip`, tar branch of `extract_zst`)
  // ---------------------------------------------------------------------------

  /** What extracting one member raises, as decided by the archive library:
      nothing, one of the three kinds `extract_zip` collects, or any other
      exception. */
  datatype Fault = NoFault | BadZipFile | LargeZipFile | ZlibError | OtherError

  /** One archive member as the library yields it. */
  datatype ArchiveMember = ArchiveMember(name: string, content: seq<Byte>, fault: Fault)

  /** The exceptions `extract_zip` catches per member. */
  predicate Collected(f: Fault)
  {
    f == BadZipFile || f == LargeZipFile || f == ZlibError
  }

  /** The extraction plan for one ZIP member, in the order the loop tests:
      exclusion, then the path guard, then the library's extraction. */
  datatype Verdict = Excluded | Unsafe | Written | Failed(fault: Fault) | Raises

  function ZipVerdict(m: ArchiveMember, root: string, excludes: seq<string>): (v: Verdict)
    ensures v.Failed? ==> Collected(v.fault)
  {
    if AnyContains(excludes, m.name) then Excluded
    else if !PathGuard(root, m.name) then Unsafe
    else match m.fault
      case NoFault => Written
      case OtherError => Raises
      case _ => Failed(m.fault)
  }

  /** `(member, str(e))` in `failed_files`. */
  datatype Failure = Failure(member: string, fault: Fault)

  /** How the member loop of `extract_zip` ends: it runs to completion, or an
      exception outside the three collected kinds escapes it. */
  datatype ZipOutcome = Completed(extracted: seq<string>, failures: seq<Failure>) | Aborted(member: string)

  /** The member loop, one member at a time. */
  function ZipPlan(ms: seq<ArchiveMember>, root: string, excludes: seq<string>): (r: ZipOutcome)
    ensures r.Completed? ==> |r.extracted| + |r.failures| <= |ms|
  {
    if ms == [] then Completed([], [])
    else
      var m := ms[|ms| - 1];
      match ZipPlan(ms[..|ms| - 1], root, excludes)
      case Aborted(n) => Aborted(n)
      case Completed(ex, fs) =>
        match ZipVerdict(m, root, excludes)
        case Written => Completed(ex + [m.name], fs)
        case Failed(f) => Completed(ex, fs + [Failure(m.name, f)])
        case Raises => Aborted(m.name)
        case _ => Completed(ex, fs)
  }

  /** Once an exception escapes, later members change nothing. */
  lemma {:induction false} AbortPersists(ms: seq<ArchiveMember>, i: nat, root: string, excludes: seq<string>)
    requires i <= |ms| && ZipPlan(ms[..i], root, excludes).Aborted?
    ensures ZipPlan(ms, root, excludes) == ZipPlan(ms[..i], root, excludes)
    decreases |ms| - i
  {
    if i < |ms| {
      assert ms[..i + 1][..i] == ms[..i];
      AbortPersists(ms, i + 1, root, excludes);
    } else {
      assert ms[..i] == ms;
    }
  }

  function Names(ms: seq<ArchiveMember>): (r: seq<string>)
    ensures |r| == |ms| && forall k :: 0 <= k < |ms| ==> r[k] == ms[k].name
  {
    seq(|ms|, k requires 0 <= k < |ms| => ms[k].name)
  }

  function AsFailures(ms: seq<ArchiveMember>): (r: seq<Failure>)
    ensures |r| == |ms| && forall k :: 0 <= k < |ms| ==> r[k] == Failure(ms[k].name, ms[k].fault)
  {
    seq(|ms|, k requires 0 <= k < |ms| => Failure(ms[k].name, ms[k].fault))
  }

  function IsWritten(root: string, excludes: seq<string>): ArchiveMember -> bool
  {
    m => ZipVerdict(m, root, excludes) == Written
  }

  function IsFailed(root: string, excludes: seq<string>): ArchiveMember -> bool
  {
    m => ZipVerdict(m, root, excludes).Failed?
  }

  /** `k` is the first member whose extraction raises an uncollected exception. */
  ghost predicate FirstRaise(ms: seq<ArchiveMember>, root: string, excludes: seq<string>, k: int)
  {
    0 <= k < |ms| && ZipVerdict(ms[k], root, excludes) == Raises
    && forall j :: 0 <= j < k ==> ZipVerdict(ms[j], root, excludes) != Raises
  }

  /** The member loop, stated as filters over the members: it aborts exactly
      when some member raises an uncollected exception, naming the first such
      member; otherwise the extracted names are those of the members judged
      written and the failures those judged failed, each in archive order. */
  lemma ZipPlanFilters(ms: seq<ArchiveMember>, root: string, excludes: seq<string>)
    ensures ZipPlan(ms, root, excludes).Aborted? <==>
      exists k :: 0 <= k < |ms| && ZipVerdict(ms[k], root, excludes) == Raises
    ensures ZipPlan(ms, root, excludes).Aborted? ==>
      exists k :: FirstRaise(ms, root, excludes, k) && ZipPlan(ms, root, excludes).member == ms[k].name
    ensures ZipPlan(ms, root, excludes).Completed? ==>
      ZipPlan(ms, root, excludes).extracted == Names(Filter(ms, IsWritten(root, excludes)))
      && ZipPlan(ms, root, excludes).failures == AsFailures(Filter(ms, IsFailed(root, excludes)))
  {
    ZipPlanAborts(ms, root, excludes);
    ZipPlanCompletes(ms, root, excludes);
  }

  /** The loop aborts exactly when some member raises an uncollected
      exception, and then it names the first such member. */
  lemma {:induction false} ZipPlanAborts(ms: seq<ArchiveMember>, root: string, excludes: seq<string>)
    ensures ZipPlan(ms, root, excludes).Aborted? <==>
      exists k :: 0 <= k < |ms| && ZipVerdict(ms[k], root, excludes) == Raises
    ensures ZipPlan(ms, root, excludes).Aborted? ==>
      exists k :: FirstRaise(ms, root, excludes, k) && ZipPlan(ms, root, excludes).member == ms[k].name
    decreases |ms|
  {
    if ms != [] {
      var init, m := ms[..|ms| - 1], ms[|ms| - 1];
      ZipPlanAborts(init, root, excludes);
      assert ms == init + [m];
      if ZipPlan(init, root, excludes).Aborted? {
        var k :| FirstRaise(init, root, excludes, k) && ZipPlan(init, root, excludes).member == init[k].name;
        assert FirstRaise(ms, root, excludes, k);
      } else if ZipVerdict(m, root, excludes) == Raises {
        assert FirstRaise(ms, root, excludes, |ms| - 1);
      } else {
        assert forall k :: 0 <= k < |ms| ==> ZipVerdict(ms[k], root, excludes) != Raises by {
          forall k | 0 <= k < |ms| ensures ZipVerdict(ms[k], root, excludes) != Raises {
            if k < |init| { assert ms[k] == init[k]; }
          }
        }
      }
    }
  }

  /** A completed loop extracted the members judged written and collected the
      members judged failed, each in archive order. */
  lemma {:induction false} ZipPlanCompletes(ms: seq<ArchiveMember>, root: string, excludes: seq<string>)
    ensures ZipPlan(ms, root, excludes).Completed? ==>
      ZipPlan(ms, root, excludes).extracted == Names(Filter(ms, IsWritten(root, excludes)))
      && ZipPlan(ms, root, excludes).failures == AsFailures(Filter(ms, IsFailed(root, excludes)))
    decreases |ms|
  {
    if ms != [] {
      var init, m := ms[..|ms| - 1], ms[|ms| - 1];
      ZipPlanCompletes(init, root, excludes);
      assert ms == init + [m];
      FilterSnoc(init, m, IsWritten(root, excludes));
      FilterSnoc(init, m, IsFailed(root, excludes));
      NamesSnoc(Filter(init, IsWritten(root, excludes)), m);
      AsFailuresSnoc(Filter(init, IsFailed(root, excludes)), m);
    }
  }

  lemma NamesSnoc(s: seq<ArchiveMember>, m: ArchiveMember)
    ensures Names(s + [m]) == Names(s) + [m.name]
  {
  }

  lemma AsFailuresSnoc(s: seq<ArchiveMember>, m: ArchiveMember)
    ensures AsFailures(s + [m]) == AsFailures(s) + [Failure(m.name, m.fault)]
  {
  }

  /** What a completed ZIP extraction guarantees about each name it wrote and
      each failure it collected: none contains an exclude pattern, all pass the
      path guard, written members raised nothing, collected failures are of the
      three caught kinds, and together they number at most the members. */
  lemma ZipPlanSafe(ms: seq<ArchiveMember>, root: string, excludes: seq<string>)
    requires ZipPlan(ms, root, excludes).Completed?
    ensures |ZipPlan(ms, root, excludes).extracted| + |ZipPlan(ms, root, excludes).failures| <= |ms|
    ensures forall n :: n in ZipPlan(ms, root, excludes).extracted ==>
      !AnyContains(excludes, n) && PathGuard(root, n)
    ensures forall f :: f in ZipPlan(ms, root, excludes).failures ==>
      !AnyContains(excludes, f.member) && PathGuard(root, f.member) && Collected(f.fault)
  {
    ZipPlanFilters(ms, root, excludes);
    var w := Filter(ms, IsWritten(root, excludes));
    var f := Filter(ms, IsFailed(root, excludes));
    FilterSplit(ms, IsWritten(root, excludes), IsFailed(root, excludes));
    forall n | n in ZipPlan(ms, root, excludes).extracted
      ensures !AnyContains(excludes, n) && PathGuard(root, n)
    {
      var k :| 0 <= k < |w| && Names(w)[k] == n;
      FilterMembership(ms, IsWritten(root, excludes), w[k]);
    }
    forall x | x in ZipPlan(ms, root, excludes).failures
      ensures !AnyContains(excludes, x.member) && PathGuard(root, x.member) && Collected(x.fault)
    {
      var k :| 0 <= k < |f| && AsFailures(f)[k] == x;
      FilterMembership(ms, IsFailed(root, excludes), f[k]);
    }
  }

  /** Two filters with disjoint tests keep no more than the whole. */
  lemma {:induction false} FilterSplit<T>(s: seq<T>, p: T -> bool, q: T -> bool)
    requires forall x :: !(p(x) && q(x))
    ensures |Filter(s, p)| + |Filter(s, q)| <= |s|
    decreases |s|
  {
    if s != [] {
      FilterSplit(s[..|s| - 1], p, q);
    }
  }

  /** A tar member is written when its joined path passes the guard and its
      extraction raises nothing; any exception is logged and skipped. */
  predicate TarWritten(m: ArchiveMember, root: string)
  {
    PathGuard(root, m.name) && m.fault == NoFault
  }

  function KeepTarWritten(root: string): ArchiveMember -> bool
  {
    m => TarWritten(m, root)
  }

  /** A tar member is written exactly when it passes the guard and raises
      nothing; relative members are written under the root and a separator. */
  lemma TarWrittenIff(ms: seq<ArchiveMember>, root: string, m: ArchiveMember)
    ensures m in Filter(ms, KeepTarWritten(root)) <==> m in ms && PathGuard(root, m.name) && m.fault == NoFault
    ensures m in Filter(ms, KeepTarWritten(root)) ==>
      StartsWith(Join(root, m.name), root) && (!IsAbsolute(m.name) ==> StartsWith(Join(root, m.name), root + [SEP]))
  {
    FilterMembership(ms, KeepTarWritten(root), m);
    if !IsAbsolute(m.name) {
      RelativeTargetUnderRoot(root, m.name);
    }
  }

  // ---------------------------------------------------------------------------
  // The ZIP result report
  // ---------------------------------------------------------------------------

  /** How many failures the report lists one by one. */
  const PREVIEW: nat := 5

  datatype ReportLine =
    | CompletedOk(extracted: nat)
    | CompletedWithErrors(errors: nat)
    | FailureLine(failure: Failure)
    | MoreErrors(remaining: nat)

  function FailureLines(fs: seq<Failure>): (r: seq<ReportLine>)
    ensures |r| == |fs| && forall k :: 0 <= k < |fs| ==> r[k] == FailureLine(fs[k])
  {
    seq(|fs|, k requires 0 <= k < |fs| => FailureLine(fs[k]))
  }

  /** The lines `extract_zip` reports at the end: a success line with the
      count when nothing failed; otherwise the error count, the first five
      failures in order, and one line with the number not shown when there
      are more than five. */
  function Report(failures: seq<Failure>, extracted: nat): (r: seq<ReportLine>)
    ensures failures == [] ==> r == [CompletedOk(extracted)]
    ensures |r| == 1 + Min(PREVIEW, |failures|) + (if |failures| > PREVIEW then 1 else 0)
    ensures failures != [] ==> r[0] == CompletedWithErrors(|failures|)
    ensures forall k :: 0 <= k < Min(PREVIEW, |failures|) ==> r[1 + k] == FailureLine(failures[k])
    ensures |failures| > PREVIEW ==> r[|r| - 1] == MoreErrors(|failures| - PREVIEW)
  {
    if failures == [] then [CompletedOk(extracted)]
    else
      var shown := failures[..Min(PREVIEW, |failures|)];
      [CompletedWithErrors(|failures|)] + FailureLines(shown)
        + (if |failures| > PREVIEW then [MoreErrors(|failures| - PREVIEW)] else [])
  }
}
