/**
  `DirectoryScanner.scan` as a state machine over an abstract filesystem.

  The processes are a sequential map over the partitions; how each worker
  ended is an input (`WorkerOutcome`), as are the platform, the chunk size,
  the behaviour of memory maps on empty files and the temp files whose
  deletion raises.  The filesystem holds the temp files `scan_i`, named by
  partition index, and the output file.
*/
module Orchestrator {
  import opened Wrappers
  import opened Seqs
  import opened Partition
  import opened Scanner
  import opened Merge
  import opened TempFiles

  /** `tempdir/scan_i` and the output file. */
  datatype FileName = Temp(index: nat) | Output

  type Fs = map<FileName, string>

  /**
    How one worker ended.  A crashed worker raised either before it opened its
    temp file (`written == None`) or after writing the first `k` characters
    of it (`written == Some(k)`).
  */
  datatype WorkerOutcome = Completed | Crashed(written: Option<nat>)

  datatype Phase = Planning | Dispatching | AwaitingWorkers | Merging | CleaningUp | Done | Failed

  /** Why a scan raised. */
  datatype ScanError =
    | InvalidWorkerCount          // the process pool rejects the worker count: below 1, or above 61 on Windows
    | WorkerCrashed(index: nat)   // the first worker whose result raised
    | EmptyTempFile(index: nat)   // the first temp file the merge could not map

  datatype Status = NothingToScan | Succeeded | Error(error: ScanError)

  /** The end of a scan: its status, the filesystem it leaves, and the phases it went through. */
  datatype Run = Run(status: Status, fs: Fs, trace: seq<Phase>)

  datatype Config = Config(windows: bool, chunkSize: int, policy: EmptyFilePolicy, undeletable: set<FileName>)

  /**
    `num_processes or os.cpu_count() or 1`: an absent or zero request falls
    back to the processor count, and that to 1.  A negative request passes
    through unchanged.
  */
  function WorkerCount(requested: Option<int>, cpuCount: Option<nat>): (n: int)
    ensures n != 0
    ensures requested.Some? && requested.value != 0 ==> n == requested.value
    ensures (requested.None? || requested.value == 0) ==> n >= 1
    ensures (requested.None? || requested.value == 0) && cpuCount.Some? && cpuCount.value != 0 ==> n == cpuCount.value
  {
    if requested.Some? && requested.value != 0 then requested.value
    else if cpuCount.Some? && cpuCount.value != 0 then cpuCount.value
    else 1
  }

  /** The temp file names, by partition index. */
  function TempNames(n: nat): (names: seq<FileName>)
    ensures |names| == n
    ensures forall i :: 0 <= i < n ==> names[i] == Temp(i)
  {
    seq(n, i requires 0 <= i < n => Temp(i))
  }

  /** What a completed worker leaves in its temp file. */
  function WorkerContent(part: seq<Directory>, windows: bool): string
  {
    Concat(ScanPartition(part, {}, windows).records)
  }

  /** What a worker whose completed run yields `content` leaves in its temp file, if it opened it. */
  function WorkerFile(content: string, outcome: WorkerOutcome): (r: Option<string>)
    ensures r.None? <==> outcome == Crashed(None)
    ensures r.Some? ==> r.value <= content
    ensures outcome == Completed ==> r == Some(content)
  {
    match outcome
    case Completed => Some(content)
    case Crashed(None) => None
    case Crashed(Some(k)) => Some(if k < |content| then content[..k] else content)
  }

  /** What the workers left in file `f`, if any of them wrote it. */
  function Wrote(contents: seq<string>, outcomes: seq<WorkerOutcome>, f: FileName): Option<string>
    requires |outcomes| == |contents|
  {
    if f.Temp? && f.index < |contents| then WorkerFile(contents[f.index], outcomes[f.index]) else None
  }

  /** A file no worker of `n` writes: the output, or a temp file beyond the last partition. */
  predicate Untouched(f: FileName, n: nat)
  {
    f == Output || f.index >= n
  }

  /** The filesystem once every worker has ended: each temp file a worker opened is replaced by what it wrote. */
  function AfterWorkers(contents: seq<string>, outcomes: seq<WorkerOutcome>, fs: Fs): (fs': Fs)
    requires |outcomes| == |contents|
    ensures forall f :: Untouched(f, |contents|) ==> (f in fs' <==> f in fs) && (f in fs ==> fs'[f] == fs[f])
  {
    var names := fs.Keys + Elems(TempNames(|contents|));
    map f | f in names && (f in fs || Wrote(contents, outcomes, f).Some?) ::
      if Wrote(contents, outcomes, f).Some? then Wrote(contents, outcomes, f).value else fs[f]
  }

  /** A temp file a worker opened holds what that worker wrote; every other file is as before. */
  lemma AfterWorkersContents(contents: seq<string>, outcomes: seq<WorkerOutcome>, fs: Fs)
    requires |outcomes| == |contents|
    ensures forall f :: f in AfterWorkers(contents, outcomes, fs) <==> f in fs || Wrote(contents, outcomes, f).Some?
    ensures forall f :: f in AfterWorkers(contents, outcomes, fs) ==>
      AfterWorkers(contents, outcomes, fs)[f]
        == if Wrote(contents, outcomes, f).Some? then Wrote(contents, outcomes, f).value else fs[f]
  {
    forall f | Wrote(contents, outcomes, f).Some?
      ensures f in fs.Keys + Elems(TempNames(|contents|))
    {
      assert TempNames(|contents|)[f.index] == f;
    }
  }

  /** The temp file of a worker that completed holds that worker's whole content. */
  lemma CompletedWorkerFile(contents: seq<string>, outcomes: seq<WorkerOutcome>, fs: Fs, i: nat)
    requires |outcomes| == |contents| && i < |contents| && outcomes[i] == Completed
    ensures Temp(i) in AfterWorkers(contents, outcomes, fs)
    ensures AfterWorkers(contents, outcomes, fs)[Temp(i)] == contents[i]
  {
    assert Wrote(contents, outcomes, Temp(i)) == Some(contents[i]);
    assert TempNames(|contents|)[i] == Temp(i);
  }

  /** Every worker ran to completion. */
  predicate AllCompleted(outcomes: seq<WorkerOutcome>)
  {
    forall i :: 0 <= i < |outcomes| ==> outcomes[i] == Completed
  }

  /** The first worker, in submission order, whose result raises. */
  function FirstCrash(outcomes: seq<WorkerOutcome>): (r: Option<nat>)
    ensures r.Some? ==> r.value < |outcomes| && outcomes[r.value].Crashed?
    ensures r.Some? ==> forall i :: 0 <= i < r.value ==> outcomes[i] == Completed
    ensures r.None? <==> AllCompleted(outcomes)
  {
    if outcomes == [] then None
    else if outcomes[0].Crashed? then Some(0)
    else match FirstCrash(outcomes[1..])
      case None => None
      case Some(j) => Some(j + 1)
  }

  /**
    The merge and the cleanup after every worker completed.  The output file
    is opened first, so it exists afterwards even when the merge raises; it
    then holds what the temp files before the failing one contributed.
  */
  function MergeAndClean(n: nat, fs1: Fs, cfg: Config): (r: Run)
    ensures r.trace == [Planning, Dispatching, AwaitingWorkers, Merging, CleaningUp, (if r.status.Error? then Failed else Done)]
    ensures r.status == Succeeded || (r.status.Error? && r.status.error.EmptyTempFile?)
    ensures r.status.Error? <==> cfg.policy == RejectEmpty && FirstEmpty(TempNames(n), fs1).Some?
    ensures r.status.Error? ==> FirstEmpty(TempNames(n), fs1) == Some(r.status.error.index)
    ensures Output in r.fs
    ensures r.status == Succeeded ==> r.fs[Output] == Merged(TempNames(n), fs1, cfg.chunkSize)
    ensures r.status.Error? ==> r.fs[Output] == Merged(TempNames(n)[..r.status.error.index], fs1, cfg.chunkSize)
    ensures forall i :: 0 <= i < n && Temp(i) !in cfg.undeletable ==> Temp(i) !in r.fs
    ensures forall i :: 0 <= i < n && Temp(i) in cfg.undeletable ==> (Temp(i) in r.fs <==> Temp(i) in fs1)
    ensures forall f :: f in r.fs && f != Output ==> f in fs1 && r.fs[f] == fs1[f]
    ensures forall f :: Untouched(f, n) && f != Output ==> (f in r.fs <==> f in fs1)
  {
    var temps := TempNames(n);
    var stop := if cfg.policy == RejectEmpty then FirstEmpty(temps, fs1) else None;
    var merged := if stop.Some? then Merged(temps[..stop.value], fs1, cfg.chunkSize)
                  else Merged(temps, fs1, cfg.chunkSize);
    var fs2 := Cleaned(fs1[Output := merged], temps, cfg.undeletable);
    assert Output !in temps;
    if stop.Some? then
      Run(Error(EmptyTempFile(stop.value)), fs2,
          [Planning, Dispatching, AwaitingWorkers, Merging, CleaningUp, Failed])
    else
      Run(Succeeded, fs2, [Planning, Dispatching, AwaitingWorkers, Merging, CleaningUp, Done])
  }

  /** A worker raised: the pool is shut down after all workers ended, the temp files are cleaned up, the error surfaces. */
  function AbortAndClean(n: nat, fs1: Fs, crashed: nat, cfg: Config): (r: Run)
    ensures r.status == Error(WorkerCrashed(crashed))
    ensures r.trace == [Planning, Dispatching, AwaitingWorkers, CleaningUp, Failed]
    ensures forall i :: 0 <= i < n && Temp(i) !in cfg.undeletable ==> Temp(i) !in r.fs
    ensures forall i :: 0 <= i < n && Temp(i) in cfg.undeletable ==> (Temp(i) in r.fs <==> Temp(i) in fs1)
    ensures forall f :: f in r.fs ==> f in fs1 && r.fs[f] == fs1[f]
    ensures forall f :: Untouched(f, n) ==> (f in r.fs <==> f in fs1)
  {
    Run(Error(WorkerCrashed(crashed)), Cleaned(fs1, TempNames(n), cfg.undeletable),
        [Planning, Dispatching, AwaitingWorkers, CleaningUp, Failed])
  }

  /**
    After the barrier, once every worker has ended and left the filesystem
    `fs1`: surface the first worker error, in submission order, after
    cleanup, or merge and clean up.
  */
  function AfterBarrier(n: nat, fs1: Fs, outcomes: seq<WorkerOutcome>, cfg: Config): (r: Run)
    requires |outcomes| == n
    ensures |r.trace| >= 5 && r.trace[0] == Planning
    ensures r.trace[|r.trace| - 2] == CleaningUp
    ensures r.trace[|r.trace| - 1] == (if r.status.Error? then Failed else Done)
    ensures r.status.Error? || r.status == Succeeded
    ensures Merging in r.trace <==> AllCompleted(outcomes)
    ensures Merging !in r.trace ==>
      (Output in r.fs <==> Output in fs1) && (Output in fs1 ==> r.fs[Output] == fs1[Output])
    ensures forall i :: 0 <= i < n && Temp(i) !in cfg.undeletable ==> Temp(i) !in r.fs
    ensures forall i :: 0 <= i < n && Temp(i) in cfg.undeletable ==> (Temp(i) in r.fs <==> Temp(i) in fs1)
    ensures forall i: nat :: i >= n ==> (Temp(i) in r.fs <==> Temp(i) in fs1)
    ensures forall f :: f in r.fs && f != Output ==> f in fs1 && r.fs[f] == fs1[f]
    ensures FirstCrash(outcomes).Some? ==> r.status == Error(WorkerCrashed(FirstCrash(outcomes).value))
    ensures r.status.Error? && r.status.error.WorkerCrashed? ==>
      var i := r.status.error.index;
      i < n && outcomes[i].Crashed? && forall j :: 0 <= j < i ==> outcomes[j] == Completed
  {
    assert forall i: nat :: i >= n ==> Untouched(Temp(i), n);
    match FirstCrash(outcomes)
    case Some(i) => AbortAndClean(n, fs1, i, cfg)
    case None => MergeAndClean(n, fs1, cfg)
  }

  /** Temp files beyond the last of `n` partitions are left iff they existed, with their contents. */
  ghost predicate KeepsBeyond(n: int, before: Fs, after: Fs)
  {
    forall i: nat :: i >= n ==>
      (Temp(i) in after <==> Temp(i) in before) && (Temp(i) in before ==> after[Temp(i)] == before[Temp(i)])
  }

  /**
    The temp files of `n` workers after cleanup: a deletable one is gone; one
    whose deletion raises is left iff it existed before the scan or its
    worker opened it.
  */
  predicate TempsCleaned(n: nat, undeletable: set<FileName>, outcomes: seq<WorkerOutcome>, before: Fs, after: Fs)
    requires |outcomes| == n
  {
    forall i :: 0 <= i < n ==>
      if Temp(i) in undeletable then (Temp(i) in after <==> Temp(i) in before || outcomes[i] != Crashed(None))
      else Temp(i) !in after
  }

  /**
    Across the workers and the barrier: without a merge the output file is
    as before, the temp files are cleaned up, and those beyond the last
    partition are kept.
  */
  lemma BarrierKeepsFiles(contents: seq<string>, outcomes: seq<WorkerOutcome>, cfg: Config, fs: Fs)
    requires |outcomes| == |contents|
    ensures var n := |contents|; var r := AfterBarrier(n, AfterWorkers(contents, outcomes, fs), outcomes, cfg);
      && (Merging !in r.trace ==>
            (Output in r.fs <==> Output in fs) && (Output in fs ==> r.fs[Output] == fs[Output]))
      && TempsCleaned(n, cfg.undeletable, outcomes, fs, r.fs)
      && KeepsBeyond(n, fs, r.fs)
  {
    var n := |contents|;
    AfterWorkersContents(contents, outcomes, fs);
    assert forall i: nat :: i >= n ==> Untouched(Temp(i), n);
    assert Untouched(Output, n);
  }

  /**
    Dispatch one worker per partition, wait for every result, and then either
    surface the first worker error after cleanup or merge and clean up.
  */
  function RunWorkers(subdirs: seq<Directory>, n: nat, outcomes: seq<WorkerOutcome>, cfg: Config, fs: Fs): (r: Run)
    requires n >= 1 && |outcomes| == n
    ensures |r.trace| >= 5 && r.trace[0] == Planning
    ensures r.trace[|r.trace| - 2] == CleaningUp
    ensures r.trace[|r.trace| - 1] == (if r.status.Error? then Failed else Done)
    ensures r.status.Error? || r.status == Succeeded
    ensures Merging in r.trace <==> AllCompleted(outcomes)
    ensures Merging !in r.trace ==>
      (Output in r.fs <==> Output in fs) && (Output in fs ==> r.fs[Output] == fs[Output])
    ensures TempsCleaned(n, cfg.undeletable, outcomes, fs, r.fs)
    ensures KeepsBeyond(n, fs, r.fs)
    ensures FirstCrash(outcomes).Some? ==> r.status == Error(WorkerCrashed(FirstCrash(outcomes).value))
    ensures r.status.Error? && r.status.error.WorkerCrashed? ==>
      var i := r.status.error.index;
      i < n && outcomes[i].Crashed? && forall j :: 0 <= j < i ==> outcomes[j] == Completed
  {
    var contents := WorkerContents(RoundRobin(subdirs, n), cfg.windows);
    var fs1 := AfterWorkers(contents, outcomes, fs);
    BarrierKeepsFiles(contents, outcomes, cfg, fs);
    AfterBarrier(n, fs1, outcomes, cfg)
  }

  /** The largest worker count the process pool accepts on Windows. */
  const MaxWindowsWorkers: int := 61

  /**
    Whether the process pool accepts `n` workers: at least one, and on
    Windows at most `MaxWindowsWorkers`; otherwise its constructor raises.
  */
  predicate PoolAccepts(n: int, windows: bool)
  {
    n >= 1 && (windows ==> n <= MaxWindowsWorkers)
  }

  /**
    `scan`: plan the partitions and return early when there is nothing to
    scan; otherwise run the workers.  A worker count the process pool
    rejects fails after the temp-file manager was entered, with no temp
    file listed yet.
  */
  function Scan(children: seq<Child>, n: int, outcomes: seq<WorkerOutcome>, cfg: Config, fs: Fs): (r: Run)
    requires PoolAccepts(n, cfg.windows) ==> |outcomes| == n
    ensures r.status == NothingToScan <==> Subdirectories(children) == []
    ensures r.status == NothingToScan ==> r.fs == fs && r.trace == [Planning, Done]
    ensures r.status == Error(InvalidWorkerCount) <==>
      Subdirectories(children) != [] && !PoolAccepts(n, cfg.windows)
    ensures r.status == Error(InvalidWorkerCount) ==> r.fs == fs
    ensures |r.trace| >= 2 && r.trace[0] == Planning
    ensures r.trace[|r.trace| - 1] == (if r.status.Error? then Failed else Done)
    ensures Subdirectories(children) != [] ==> r.trace[|r.trace| - 2] == CleaningUp
    ensures Merging in r.trace <==>
      Subdirectories(children) != [] && PoolAccepts(n, cfg.windows) && AllCompleted(outcomes)
    ensures Merging !in r.trace ==>
      (Output in r.fs <==> Output in fs) && (Output in fs ==> r.fs[Output] == fs[Output])
    ensures Subdirectories(children) != [] && PoolAccepts(n, cfg.windows) ==>
      TempsCleaned(n, cfg.undeletable, outcomes, fs, r.fs)
    ensures KeepsBeyond(n, fs, r.fs)
    ensures Subdirectories(children) != [] && PoolAccepts(n, cfg.windows) && FirstCrash(outcomes).Some? ==>
      r.status == Error(WorkerCrashed(FirstCrash(outcomes).value))
  {
    var subdirs := Subdirectories(children);
    if subdirs == [] then Run(NothingToScan, fs, [Planning, Done])
    else if !PoolAccepts(n, cfg.windows) then Run(Error(InvalidWorkerCount), fs, [Planning, Dispatching, CleaningUp, Failed])
    else RunWorkers(subdirs, n, outcomes, cfg, fs)
  }

  /** The records each worker yields, by partition index. */
  function WorkerRecords(parts: seq<seq<Directory>>, windows: bool): (w: seq<seq<string>>)
    ensures |w| == |parts|
  {
    seq(|parts|, i requires 0 <= i < |parts| => ScanPartition(parts[i], {}, windows).records)
  }

  /** The temp-file contents of completed workers, by partition index. */
  function WorkerContents(parts: seq<seq<Directory>>, windows: bool): (c: seq<string>)
    ensures |c| == |parts|
  {
    seq(|parts|, i requires 0 <= i < |parts| => WorkerContent(parts[i], windows))
  }

  /** When every worker completed, merging the first `k` temp files concatenates the first `k` workers' contents. */
  lemma {:induction false} MergedCompletedTemps(contents: seq<string>, outcomes: seq<WorkerOutcome>, fs: Fs, chunkSize: int, k: nat)
    requires |outcomes| == |contents| && k <= |contents|
    requires forall i :: 0 <= i < |contents| ==> outcomes[i] == Completed
    requires chunkSize != 0
    ensures Merged(TempNames(|contents|)[..k], AfterWorkers(contents, outcomes, fs), chunkSize) == Concat(contents[..k])
  {
    var fs1 := AfterWorkers(contents, outcomes, fs);
    var temps := TempNames(|contents|);
    if k > 0 {
      MergedCompletedTemps(contents, outcomes, fs, chunkSize, k - 1);
      assert temps[..k][..k - 1] == temps[..k - 1];
      CompletedWorkerFile(contents, outcomes, fs, k - 1);
      assert Piece(fs1, temps[k - 1], chunkSize) == contents[k - 1];
      assert contents[..k] == contents[..k - 1] + [contents[k - 1]];
      ConcatSnoc(contents[..k - 1], contents[k - 1]);
    } else {
      assert contents[..0] == [];
    }
  }

  /**
    A scan that succeeds leaves in the output file the temp-file contents of
    the workers concatenated in partition order (nothing at all with a chunk
    size of 0, which ends every copy loop at once).
  */
  lemma SuccessfulScanOutput(children: seq<Child>, n: nat, outcomes: seq<WorkerOutcome>, cfg: Config, fs: Fs)
    requires n >= 1 && |outcomes| == n
    requires Scan(children, n, outcomes, cfg, fs).status == Succeeded
    ensures Output in Scan(children, n, outcomes, cfg, fs).fs
    ensures Scan(children, n, outcomes, cfg, fs).fs[Output]
         == if cfg.chunkSize == 0 then [] else Concat(WorkerContents(RoundRobin(Subdirectories(children), n), cfg.windows))
  {
    var contents := WorkerContents(RoundRobin(Subdirectories(children), n), cfg.windows);
    var fs1 := AfterWorkers(contents, outcomes, fs);
    assert FirstCrash(outcomes).None?;
    if cfg.chunkSize == 0 {
      MergedNothing(TempNames(n), fs1);
    } else {
      MergedCompletedTemps(contents, outcomes, fs, cfg.chunkSize, n);
      assert TempNames(n)[..n] == TempNames(n);
      assert contents[..n] == contents;
    }
  }

  /** With a chunk size of 0 the merge copies nothing. */
  lemma {:induction false} MergedNothing(files: seq<FileName>, fs: Fs)
    ensures Merged(files, fs, 0) == []
  {
    if files != [] {
      MergedNothing(files[..|files| - 1], fs);
    }
  }

  /**
    The merge as written fails as soon as one completed worker's temp file is
    empty: a completed worker always creates its file, and mapping an empty
    file raises.
  */
  lemma EmptyTempFailsMerge(contents: seq<string>, outcomes: seq<WorkerOutcome>, cfg: Config, fs: Fs, m: nat)
    requires m < |contents| == |outcomes| && contents[m] == [] && AllCompleted(outcomes)
    requires cfg.policy == RejectEmpty
    ensures MergeAndClean(|contents|, AfterWorkers(contents, outcomes, fs), cfg).status.Error?
  {
    AfterWorkersContents(contents, outcomes, fs);
    assert EmptyAt(TempNames(|contents|), AfterWorkers(contents, outcomes, fs), m);
  }

  /**
    So, as written, a scan with more workers than subdirectories fails even
    when every worker completed: the last partitions are empty, and the
    first of them is at the latest the one at index `len(subdirs)`.  (A
    worker count the pool rejects fails before any worker runs.)
  */
  lemma SpareWorkerFailsScan(children: seq<Child>, n: nat, outcomes: seq<WorkerOutcome>, cfg: Config, fs: Fs)
    requires 1 <= |Subdirectories(children)| < n && |outcomes| == n && AllCompleted(outcomes)
    requires cfg.policy == RejectEmpty
    ensures Scan(children, n, outcomes, cfg, fs).status.Error?
    ensures PoolAccepts(n, cfg.windows) ==> Scan(children, n, outcomes, cfg, fs).status.error.EmptyTempFile?
    ensures PoolAccepts(n, cfg.windows) ==> Scan(children, n, outcomes, cfg, fs).status.error.index <= |Subdirectories(children)|
  {
    var subdirs := Subdirectories(children);
    if !PoolAccepts(n, cfg.windows) {
      return;
    }
    var m := |subdirs|;
    var parts := RoundRobin(subdirs, n);
    var contents := WorkerContents(parts, cfg.windows);
    var fs1 := AfterWorkers(contents, outcomes, fs);
    assert parts[m] == [];
    assert contents[m] == [];
    EmptyTempFailsMerge(contents, outcomes, cfg, fs, m);
    AfterWorkersContents(contents, outcomes, fs);
    assert EmptyAt(TempNames(n), fs1, m);
    assert FirstCrash(outcomes).None?;
  }

  /**
    The corrected merge, which passes over empty temp files, never fails once
    every worker completed, and its output is the workers' contents in
    partition order.
  */
  lemma SkipEmptyMergeSucceeds(contents: seq<string>, outcomes: seq<WorkerOutcome>, cfg: Config, fs: Fs)
    requires |outcomes| == |contents| && AllCompleted(outcomes)
    requires cfg.policy == SkipEmpty
    ensures MergeAndClean(|contents|, AfterWorkers(contents, outcomes, fs), cfg).status == Succeeded
    ensures MergeAndClean(|contents|, AfterWorkers(contents, outcomes, fs), cfg).fs[Output]
         == if cfg.chunkSize == 0 then [] else Concat(contents)
  {
    var n := |contents|;
    if cfg.chunkSize == 0 {
      MergedNothing(TempNames(n), AfterWorkers(contents, outcomes, fs));
    } else {
      MergedCompletedTemps(contents, outcomes, fs, cfg.chunkSize, n);
      assert TempNames(n)[..n] == TempNames(n);
      assert contents[..n] == contents;
    }
  }

  /** So the corrected scan succeeds once every worker completed, with the workers' contents in partition order as output. */
  lemma SkipEmptyScanSucceeds(children: seq<Child>, n: nat, outcomes: seq<WorkerOutcome>, cfg: Config, fs: Fs)
    requires Subdirectories(children) != [] && PoolAccepts(n, cfg.windows) && |outcomes| == n && AllCompleted(outcomes)
    requires cfg.policy == SkipEmpty
    ensures Scan(children, n, outcomes, cfg, fs).status == Succeeded
    ensures Scan(children, n, outcomes, cfg, fs).fs[Output]
         == if cfg.chunkSize == 0 then [] else Concat(WorkerContents(RoundRobin(Subdirectories(children), n), cfg.windows))
  {
    SkipEmptyMergeSucceeds(WorkerContents(RoundRobin(Subdirectories(children), n), cfg.windows), outcomes, cfg, fs);
    assert FirstCrash(outcomes).None?;
  }

  /**
    Completeness and per-worker deduplication: no worker yields a record
    twice, and the records of all workers together are exactly the records
    of every accessible entry reached under every scanned subdirectory.
  */
  lemma ScanCompleteness(subdirs: seq<Directory>, n: nat, windows: bool)
    requires n >= 1
    ensures forall i :: 0 <= i < n ==> Distinct(WorkerRecords(RoundRobin(subdirs, n), windows)[i])
    ensures Elems(Concat(WorkerRecords(RoundRobin(subdirs, n), windows))) == PartitionRecords(subdirs, windows)
  {
    var parts := RoundRobin(subdirs, n);
    var w := WorkerRecords(parts, windows);
    RoundRobinPermutation(subdirs, n);
    forall i | 0 <= i < n ensures Distinct(w[i]) {
      ScanPartitionSpec(parts[i], {}, windows);
    }
    forall record | record in PartitionRecords(subdirs, windows)
      ensures record in Concat(w)
    {
      PartitionRecordsMembership(subdirs, windows, record);
      var d :| d in subdirs && record in DirectoryRecords(d, windows);
      assert d in multiset(Concat(parts));
      InConcat(parts, d);
      var i :| 0 <= i < |parts| && d in parts[i];
      PartitionRecordsMembership(parts[i], windows, record);
      ScanPartitionSpec(parts[i], {}, windows);
      assert record in Elems(w[i]);
      InConcat(w, record);
    }
    forall record | record in Concat(w)
      ensures record in PartitionRecords(subdirs, windows)
    {
      InConcat(w, record);
      var i :| 0 <= i < |w| && record in w[i];
      ScanPartitionSpec(parts[i], {}, windows);
      assert record in Elems(w[i]);
      PartitionRecordsMembership(parts[i], windows, record);
      var d :| d in parts[i] && record in DirectoryRecords(d, windows);
      InConcat(parts, d);
      assert d in multiset(subdirs);
      PartitionRecordsMembership(subdirs, windows, record);
    }
  }

  /** The temp files the first `i` workers have written, over the filesystem `fs`. */
  ghost predicate WrittenUpTo(fs1: Fs, contents: seq<string>, outcomes: seq<WorkerOutcome>, fs: Fs, i: nat)
    requires |outcomes| == |contents|
  {
    forall f: FileName ::
      var w := if f.Temp? && f.index < i then Wrote(contents, outcomes, f) else None;
      (f in fs1 <==> f in fs || w.Some?) && (f in fs1 ==> fs1[f] == if w.Some? then w.value else fs[f])
  }

  /** One more worker ending extends what the workers before it have written. */
  lemma WrittenUpToStep(fs1: Fs, contents: seq<string>, outcomes: seq<WorkerOutcome>, fs: Fs, i: nat)
    requires |outcomes| == |contents| && i < |contents|
    requires WrittenUpTo(fs1, contents, outcomes, fs, i)
    ensures var w := WorkerFile(contents[i], outcomes[i]);
      WrittenUpTo(if w.Some? then fs1[Temp(i) := w.value] else fs1, contents, outcomes, fs, i + 1)
  {
  }

  /** Once every worker has ended, the filesystem is the one `AfterWorkers` describes. */
  lemma WrittenByAll(fs1: Fs, contents: seq<string>, outcomes: seq<WorkerOutcome>, fs: Fs)
    requires |outcomes| == |contents|
    requires WrittenUpTo(fs1, contents, outcomes, fs, |contents|)
    ensures fs1 == AfterWorkers(contents, outcomes, fs)
  {
    AfterWorkersContents(contents, outcomes, fs);
  }

  /** The workers run one after another; each writes its temp file through `ProcessChunk`. */
  method RunWorkerProcesses(parts: seq<seq<Directory>>, outcomes: seq<WorkerOutcome>, fs: Fs, windows: bool)
    returns (fs1: Fs)
    requires |outcomes| == |parts|
    ensures fs1 == AfterWorkers(WorkerContents(parts, windows), outcomes, fs)
  {
    ghost var contents := WorkerContents(parts, windows);
    fs1 := fs;
    for i := 0 to |parts|
      invariant WrittenUpTo(fs1, contents, outcomes, fs, i)
    {
      var records, file := ProcessChunk(parts[i], windows);
      assert file == contents[i];
      WrittenUpToStep(fs1, contents, outcomes, fs, i);
      var written := WorkerFile(file, outcomes[i]);
      if written.Some? {
        fs1 := fs1[Temp(i) := written.value];
      }
    }
    WrittenByAll(fs1, contents, outcomes, fs);
  }

  /** After the barrier: clean up and surface a worker error, or merge chunk by chunk and clean up. */
  method FinishScan(n: nat, fs1: Fs, outcomes: seq<WorkerOutcome>, cfg: Config) returns (r: Run)
    requires |outcomes| == n
    ensures r == AfterBarrier(n, fs1, outcomes, cfg)
  {
    var temps := TempNames(n);
    var crashed := FirstCrash(outcomes);
    if crashed.Some? {
      var cleaned, _ := Cleanup(fs1, temps, cfg.undeletable);
      return Run(Error(WorkerCrashed(crashed.value)), cleaned,
                 [Planning, Dispatching, AwaitingWorkers, CleaningUp, Failed]);
    }
    var output, _, failedAt := MergeFiles(temps, fs1, cfg.chunkSize, cfg.policy);
    var cleaned, _ := Cleanup(fs1[Output := output], temps, cfg.undeletable);
    if failedAt.Some? {
      r := Run(Error(EmptyTempFile(failedAt.value)), cleaned,
               [Planning, Dispatching, AwaitingWorkers, Merging, CleaningUp, Failed]);
    } else {
      r := Run(Succeeded, cleaned, [Planning, Dispatching, AwaitingWorkers, Merging, CleaningUp, Done]);
    }
  }

  /**
    The scan run step by step: the workers write their temp files through
    `ProcessChunk`, the merge copies chunk by chunk through `MergeFiles`, and
    `Cleanup` deletes the temp files.  It ends exactly as `Scan` describes.
  */
  method RunScan(children: seq<Child>, n: int, outcomes: seq<WorkerOutcome>, cfg: Config, fs: Fs) returns (r: Run)
    requires PoolAccepts(n, cfg.windows) ==> |outcomes| == n
    ensures r == Scan(children, n, outcomes, cfg, fs)
  {
    var subdirs := Subdirectories(children);
    if subdirs == [] {
      return Run(NothingToScan, fs, [Planning, Done]);
    }
    if !PoolAccepts(n, cfg.windows) {
      return Run(Error(InvalidWorkerCount), fs, [Planning, Dispatching, CleaningUp, Failed]);
    }
    var parts := RoundRobin(subdirs, n);
    var fs1 := RunWorkerProcesses(parts, outcomes, fs, cfg.windows);
    r := FinishScan(n, fs1, outcomes, cfg);
  }
}
