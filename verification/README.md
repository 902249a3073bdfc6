# DirectoryScanner pipeline, modelled in Dafny

This project models the pure core of `DirectoryScanner` in `main-pathOS-optimized.py`. The scanner lists every entry under the immediate subdirectories of a root. It writes one normalised path per line into a single output file. The pipeline has five parts:

- **Partition.** The accessible subdirectories are split round-robin into `n` partitions. Partition `i` is `subdirs[i::n]`.
- **Workers.** Each partition goes to one worker process. The worker scans its directories recursively. It normalises every accessible entry (`_normalize_path`), drops records it has already seen, and streams the rest into its temp file `scan_i`.
- **Barrier.** The orchestrator waits for every worker.
- **Merge.** If all workers succeeded, the temp files are concatenated in partition order into the output file. Each file is copied through a memory map in reads of `chunk_size`.
- **Cleanup.** On every exit path, every listed temp file that exists is deleted.

Modules, one per component:

- `Paths` (`paths.dfy`): `_normalize_path` and the Win32 extended-length prefixes `\\?\` and `\\?\UNC\`.
- `Partition` (`partition.dfy`): the round-robin `islice` split.
- `Scanner` (`scanner.dfy`): `_get_subdirectories`, `_scan_directory` and `_process_chunk`, with the seen-set threaded through.
- `Merge` (`merge.dfy`): `_merge_files` and its chunked copy loop.
- `TempFiles` (`tempfiles.dfy`): the cleanup in `_temp_file_manager`.
- `Orchestrator` (`orchestrator.dfy`): `scan` as a state machine, `Planning → Dispatching → AwaitingWorkers → Merging → CleaningUp → Done | Failed`. It comes in two forms: a pure function (`Scan`) and a step-by-step method (`RunScan`) proved equal to it.
- `Seqs` and `Wrappers`: shared vocabulary (concatenation, distinctness, `Option`).

Everything the code asks of the operating system is an input to the model:

- The recursive enumeration is a `Directory`. It holds the entries that `rglob` yields, in order, and where the enumeration raises, if it does.
- The access probe and the "is a directory" test are booleans on entries and children.
- `path.absolute()` is an `Option<string>`. `None` means the call raised, which is the `except` branch of `_normalize_path`.
- `platform.system() == 'Windows'` is the `windows` flag. It also decides the process pool's limit of 61 workers on Windows.
- How each worker process ended is a `WorkerOutcome`.
- Which temp-file deletions raise is the set `undeletable`.
- The filesystem is a map from `scan_i` and the output file to their contents.

Four behaviours of the code are worth stating outright:

- **Normalisation is not idempotent on Windows.** A Windows record read back as a resolved path gets a long-path prefix again, so the record grows (`Paths.WindowsNotIdempotent`). On POSIX it is idempotent (`Paths.PosixIdempotent`).
- **A failed merge leaves a half-written output file.** The output is opened for writing before the copy loop. A merge that raises leaves the output holding the temp files before the failing one (`Orchestrator.MergeAndClean`).
- **Temp files are not in a dedicated subdirectory.** `_temp_file_manager` creates `directory_scanner` under the system temp directory, but the temp files are `tempdir/scan_i`, directly in the system temp directory.
- **The merge skips only missing temp files.** A completed worker always creates its file, even an empty one, and an empty file makes the memory map raise (see Findings).

## Model

| member | source | states |
|---|---|---|
| Paths.Normalize | main-pathOS-optimized.py:34-44 | Every branch appends exactly one `\n` to a body. If resolution raised, the body is the raw path. On POSIX it is the absolute path unchanged. On Windows the record starts with `\\?\`. |
| Paths.WindowsRoundTrip | main-pathOS-optimized.py:37-40 | On Windows a record gets the `\\?\UNC\` prefix iff its absolute path starts with `\\`. Stripping the `\\?\UNC\` or `\\?\` prefix from a record gives back the absolute path, so `\\?\UNC\` replaces exactly the leading `\\`. The only exception is a path that starts with `UNC\`. |
| Paths.NormalizeInjective | main-pathOS-optimized.py:53-55 | Two resolved entries get the same record iff their absolute paths are equal. So the seen-set deduplicates absolute paths. |
| Paths.UncWordCollides | main-pathOS-optimized.py:38-40 | The `UNC\` exception is real: `UNC\s` and `\\s` normalise to the same Windows record. |
| Paths.PosixIdempotent | main-pathOS-optimized.py:41 | On POSIX, normalising a record read back as a path gives the same record. |
| Paths.WindowsNotIdempotent | main-pathOS-optimized.py:37-40 | On Windows, normalising a record again always gives a longer record. |
| Partition.RoundRobin | main-pathOS-optimized.py:107-108 | The split has exactly `n` partitions, some possibly empty. |
| Partition.Stride | main-pathOS-optimized.py:107 | `islice(s, start, None, step)` yields only elements of `s`, and no more of them than lie from `start` on. `StrideElements` and `StrideReaches` pin down which ones. |
| Partition.StrideElements | main-pathOS-optimized.py:107 | Element `k` of `islice(s, start, None, step)` is `s[start + k*step]`, and it lies inside `s`. |
| Partition.StrideReaches | main-pathOS-optimized.py:107 | Every position `start + k*step` inside `s` is element `k` of the slice. |
| Partition.RoundRobinShape | main-pathOS-optimized.py:107-108 | Partition `i` holds the subdirectories at positions `i, i+n, i+2n, …`, in their original order. |
| Partition.RoundRobinCoverage | main-pathOS-optimized.py:107-108 | The subdirectory at position `j` is element `j / n` of partition `j % n`. |
| Partition.ExactlyOnePartition | main-pathOS-optimized.py:107-108 | For distinct subdirectories, the one at position `j` is in partition `i` iff `i == j % n`. |
| Partition.RoundRobinPermutation | main-pathOS-optimized.py:107-108 | The partitions together are a permutation of the subdirectory list, so their lengths sum to its length. |
| Partition.RoundRobinSnoc | main-pathOS-optimized.py:107-108 | A subdirectory appended to the list goes to the end of partition `len % n`. No other partition changes. |
| Scanner.Subdirectories | main-pathOS-optimized.py:68-70 | A directory is scanned iff it is a child of the root that is a directory and passes the access probe. |
| Scanner.SubdirectoriesAppend | main-pathOS-optimized.py:68-70 | The filter keeps listing order and multiplicity: a single child is kept iff it is an accessible directory, and filtering `a + b` is filtering `a` followed by filtering `b`. |
| Scanner.ScanEntriesSpec | main-pathOS-optimized.py:51-56 | The yielded records are pairwise distinct. None was in the seen-set before. Together they are exactly the records of the accessible entries not seen before, so inaccessible entries are skipped and traversal goes on. The seen-set grows by exactly the yielded records. |
| Scanner.ScanEntries | main-pathOS-optimized.py:51-56 | The entry loop of `_scan_directory`. Its own contract says only that the seen-set never shrinks; `ScanEntriesSpec` gives the full characterisation. |
| Scanner.ScanDirectorySpec | main-pathOS-optimized.py:46-58 | An inaccessible directory yields nothing and leaves the seen-set unchanged. Otherwise the output is the dedup of the entries reached before any enumeration error, with the same seen-set growth. |
| Scanner.ScanDirectory | main-pathOS-optimized.py:46-58 | An inaccessible directory yields nothing and leaves the seen-set as it was, and the seen-set never shrinks. `ScanDirectorySpec` gives the full characterisation. |
| Scanner.ScanEntriesAppend | main-pathOS-optimized.py:51-56 | Scanning `a ++ b` is scanning `a`, then scanning `b` from the seen-set `a` left. |
| Scanner.TruncatedScanIsPrefix | main-pathOS-optimized.py:46-58 | An enumeration error only cuts the output short, and an inaccessible directory yields nothing: what a directory yields is a prefix of what the full traversal would yield. |
| Scanner.PartitionRecordsMembership | main-pathOS-optimized.py:64-65 | A record belongs to a partition iff it belongs to one of the partition's directories. |
| Scanner.ScanPartitionSpec | main-pathOS-optimized.py:60-66 | Directories are scanned in order with one shared seen-set. A failed directory does not stop the later ones. The output has no duplicates and is exactly the partition's records not seen before. |
| Scanner.ScanPartition | main-pathOS-optimized.py:64-65 | A worker's loop over its directories with one seen-set. Its own contract says an empty partition yields nothing and the seen-set never shrinks; `ScanPartitionSpec` gives the full characterisation. |
| Scanner.WriteRecords | main-pathOS-optimized.py:65-66 | Writing records one by one appends their concatenation to the file. |
| Scanner.ProcessChunk | main-pathOS-optimized.py:60-66 | The worker's temp file is the concatenation of its records. The records are pairwise distinct, are exactly the records of its partition, and come out in the order of the sequential scan. |
| Merge.Read | main-pathOS-optimized.py:96 | `mm.read(chunk_size)` returns the next slice, at most `chunk_size` long. It is empty exactly at the end of the file or when `chunk_size` is 0. |
| Merge.CopyChunks | main-pathOS-optimized.py:96-97 | The chunks written are non-empty and at most `chunk_size` long. Together they are the whole file, unless `chunk_size` is 0, in which case nothing is written. |
| Merge.FirstEmpty | main-pathOS-optimized.py:91-95 | Finds the first listed temp file that exists and is empty, which is the file whose memory map raises. |
| Merge.MergeFiles | main-pathOS-optimized.py:88-97 | The output is the concatenation, in list order, of every existing listed file; missing files are skipped. The chunked writes concatenate to the output. Under the as-written policy the first existing empty file stops the merge, leaving the output with the files before it. |
| TempFiles.Cleanup | main-pathOS-optimized.py:78-86 | Every listed file that exists and can be deleted is gone, and every other file keeps its contents. A failing deletion does not stop the others, and the logged errors are exactly the existing listed files whose deletion raised. |
| Orchestrator.WorkerCount | main-pathOS-optimized.py:100 | The worker count is never 0, and a non-zero request is used as given. An absent or zero request falls back to the processor count when that is known and non-zero, and to 1 otherwise. |
| Orchestrator.TempNames | main-pathOS-optimized.py:114-116 | One temp file per partition, `scan_i` for partition `i`, listed in partition order. |
| Orchestrator.AfterWorkers | main-pathOS-optimized.py:114-117 | The workers do not touch the output file or any temp file beyond the last partition. |
| Orchestrator.WorkerFile | main-pathOS-optimized.py:63-66 | A worker that completed leaves its whole content in its temp file. A worker that crashed leaves a prefix of it, or no file if it crashed before opening one. |
| Orchestrator.AfterWorkersContents | main-pathOS-optimized.py:60-66 | A temp file a worker opened holds what that worker wrote, and every other file is as before. |
| Orchestrator.FirstCrash | main-pathOS-optimized.py:119-120 | Finds the first worker, in submission order, whose result raises. This is the error `scan` surfaces. |
| Orchestrator.AbortAndClean | main-pathOS-optimized.py:80-86 | After a worker error, every deletable temp file is removed and a temp file whose deletion raises stays. Every file left keeps its contents, files outside the temp list are untouched, and the run fails after cleanup. |
| Orchestrator.MergeAndClean | main-pathOS-optimized.py:88-97 | Merging then cleanup. The output file always exists afterwards, holding either all temp files or those before the first empty one. The merge fails iff the as-written policy meets an existing empty temp file. Deletable temp files are then removed and undeletable ones stay as they were. |
| Orchestrator.AfterBarrier | main-pathOS-optimized.py:117-122 | After the barrier, the merge runs iff every worker completed. If a worker raised, the run fails with the first failing worker in submission order. Without a merge the output file is untouched. Deletable temp files are removed. Every other file that remains, apart from the output, keeps its contents, and an undeletable temp file remains iff it existed. Cleanup always precedes the terminal state. |
| Orchestrator.RunWorkers | main-pathOS-optimized.py:107-122 | The merge runs iff every worker completed, and a worker that raised makes the run fail with the first such worker in submission order. Without a merge the output file is untouched. Deletable temp files are removed (`TempsCleaned`). An undeletable one remains iff it existed before the scan or its worker opened it. Temp files beyond the last partition keep their presence and contents (`KeepsBeyond`). Cleanup always precedes the terminal state. |
| Orchestrator.Scan | main-pathOS-optimized.py:99-122 | With no accessible subdirectories, `scan` returns at once and changes nothing. A worker count the process pool rejects (below 1, or above 61 on Windows) fails without touching files. Otherwise the merge runs iff all workers completed, a worker that raised fails the scan with the first such worker, and cleanup removes every deletable `scan_i` while an undeletable one remains iff it existed or its worker opened it. On every path, temp files beyond the last partition keep their presence and contents. |
| Orchestrator.MergedCompletedTemps | main-pathOS-optimized.py:114-122 | Once every worker completed, merging the first `k` temp files gives the first `k` workers' contents, concatenated. |
| Orchestrator.MergedNothing | main-pathOS-optimized.py:96 | With a chunk size of 0 the merge copies nothing. |
| Orchestrator.SuccessfulScanOutput | main-pathOS-optimized.py:110-122 | A successful scan leaves the workers' temp-file contents in the output, concatenated in partition order. |
| Orchestrator.EmptyTempFailsMerge | main-pathOS-optimized.py:91-95 | As written, once every worker completed, a single empty temp file makes the merge fail, since a completed worker always creates its file. |
| Orchestrator.SpareWorkerFailsScan | main-pathOS-optimized.py:88-97 | As written, with more workers than subdirectories and every worker completing, the scan fails. When the pool accepts the worker count, it fails on an empty temp file at an index no greater than the number of subdirectories. |
| Orchestrator.SkipEmptyMergeSucceeds | main-pathOS-optimized.py:88-97 | The corrected merge, given the temp files of workers that all completed, succeeds. It outputs their contents concatenated in partition order, or nothing with a chunk size of 0. |
| Orchestrator.SkipEmptyScanSucceeds | main-pathOS-optimized.py:88-97 | With the corrected merge, a scan whose worker count the pool accepts succeeds once every worker completed. Its output is the workers' contents in partition order, or nothing with a chunk size of 0. |
| Orchestrator.ScanCompleteness | main-pathOS-optimized.py:46-66 | No worker yields a record twice. All workers' records together are exactly the records of the accessible entries under the scanned subdirectories. |
| Orchestrator.RunWorkerProcesses | main-pathOS-optimized.py:111-117 | Running each worker through `ProcessChunk` leaves the temp files that `AfterWorkers` describes. |
| Orchestrator.FinishScan | main-pathOS-optimized.py:119-122 | After the barrier, the chunked merge and the cleanup loop end exactly as `AfterBarrier` describes. |
| Orchestrator.RunScan | main-pathOS-optimized.py:99-122 | The step-by-step scan ends in the same state as `Scan`. |

## Findings

| source | as written | input that shows it | evidently intended | confidence | as-written member | corrected member |
|---|---|---|---|---|---|---|
| main-pathOS-optimized.py:95 | Every existing temp file is memory-mapped, and mapping a zero-length file raises `ValueError`. A completed worker always creates its temp file, even when it yields nothing (line 63). | One accessible subdirectory holding one file, and two workers. Partition 1 is empty, so `scan_1` is empty and the merge raises. The default worker count is the processor count, so any root with fewer subdirectories than processors fails. | An empty temp file contributes nothing to the output, like a missing one. | high; not executed | Orchestrator.SpareWorkerFailsScan | Orchestrator.SkipEmptyScanSucceeds |

The merge's behaviour on an empty file is the `Config.policy` input:

- `RejectEmpty` is the code as written.
- `SkipEmpty` is the corrected merge.

`MergeFiles`, `MergeAndClean`, `Scan` and `RunScan` are stated for both policies. `SuccessfulScanOutput` and `ScanCompleteness` hold under either policy.

## Left out

- Filesystem traversal is not modelled: `rglob`, `iterdir`, `is_dir`, `os.access`, `Path.resolve`, `Path.absolute` and `mkdir`. These are foreign calls. Their results are inputs: entry sequences, access and directory flags, and an optional absolute path.
- Listing the root can raise inside `iterdir`; that is not modelled. The constructor's checks (root must exist, output parent is created) are not modelled either.
- Each subdirectory's accessibility is probed twice, in `_get_subdirectories` and in `_scan_directory`. The model uses one answer for both.
- `ProcessPoolExecutor` concurrency and pickling are not modelled. Workers run as a sequential map over the partitions, each starting with an empty seen-set, which is what pickling `self` gives each process. A worker's exception is its `WorkerOutcome`. A crashed worker's temp file is a prefix of its full content.
- Files are character sequences, so the UTF-8 encoding of records is not modelled. In particular, `encode` raising on undecodable POSIX file names is not modelled; it would surface as a crashed worker.
- Write buffering (`buffering=chunk_size`) only changes when bytes reach the disk, not what the files hold. It is not modelled.
- Deduplication is stated per record. A file name containing `\n` spans two lines of the output, so uniqueness is not claimed line by line.
- Logging is not modelled. `platform.system()` is the `windows` flag. `os.cpu_count()` is an input to `WorkerCount`.
- Temp files live in the shared system temp directory, so two scans running at the same time would overwrite each other's `scan_i`. This is not modelled.
- I/O errors while writing the output file are not modelled.
- `write_paths_to_file` and the `__main__` block are thin wrappers around `scan` and are not modelled.
