/**
  The per-worker scan: `_get_subdirectories` (which top-level children are
  scanned), `_scan_directory` (one directory's deduplicated records) and
  `_process_chunk` (one worker's temp-file contents).

  The recursive enumeration, the access probe and the "is a directory" test
  are inputs recorded in the datatypes below.  The seen-set is the scanner's
  instance field; each worker process receives its own copy of the scanner,
  still empty, so one seen-set is threaded through all directories of one
  partition and no further.
*/
module Scanner {
  import opened Wrappers
  import opened Seqs
  import opened Paths

  /** One entry the recursive enumeration yields: its path and whether the access probe succeeds on it. */
  datatype Entry = Entry(path: PathView, accessible: bool)

  /**
    A top-level subdirectory: whether the access probe succeeds on it, the
    entries a complete recursive enumeration yields, in order, and, when the
    enumeration raises, how many entries it yields before it does.
  */
  datatype Directory = Directory(accessible: bool, entries: seq<Entry>, failsAfter: Option<nat>)

  /** An immediate child of the scan root. */
  datatype Child = Child(isDir: bool, dir: Directory)

  /** The records a scan yielded, and the seen-set after it. */
  datatype Scanned = Scanned(records: seq<string>, seen: set<string>)

  /** The children that are directories and pass the access probe, in listing order. */
  function Subdirectories(children: seq<Child>): (subdirs: seq<Directory>)
    ensures |subdirs| <= |children|
    ensures forall d :: d in subdirs <==> exists c :: c in children && c.isDir && c.dir.accessible && c.dir == d
  {
    if children == [] then []
    else
      var rest := Subdirectories(children[1..]);
      assert forall c :: c in children[1..] ==> c in children;
      assert forall c :: c in children ==> c == children[0] || c in children[1..];
      if children[0].isDir && children[0].dir.accessible then [children[0].dir] + rest else rest
  }

  /**
    `_get_subdirectories` keeps the listing order and every kept child: a
    single child is kept exactly when it is an accessible directory, and the
    children of a longer listing are filtered piece by piece, in order.
  */
  lemma {:induction false} SubdirectoriesAppend(a: seq<Child>, b: seq<Child>)
    ensures |a| == 1 ==> Subdirectories(a) == if a[0].isDir && a[0].dir.accessible then [a[0].dir] else []
    ensures Subdirectories(a + b) == Subdirectories(a) + Subdirectories(b)
  {
    if a == [] {
      assert a + b == b;
    } else {
      assert (a + b)[0] == a[0];
      assert (a + b)[1..] == a[1..] + b;
      SubdirectoriesAppend(a[1..], b);
    }
  }

  /** The entries actually yielded: all of them, or those before the enumeration raised. */
  function Reached(d: Directory): seq<Entry>
  {
    match d.failsAfter
    case Some(k) => if k < |d.entries| then d.entries[..k] else d.entries
    case None => d.entries
  }

  /** The records of the accessible entries of `es`. */
  function Records(es: seq<Entry>, windows: bool): set<string>
  {
    set e | e in es && e.accessible :: Normalize(e.path, windows)
  }

  /**
    The loop of `_scan_directory` over a sequence of entries: skip an
    inaccessible entry, normalise an accessible one, and yield its record
    unless the seen-set already holds it, adding it to the set.
  */
  function ScanEntries(es: seq<Entry>, seen: set<string>, windows: bool): (r: Scanned)
    ensures seen <= r.seen
    decreases |es|
  {
    if es == [] then Scanned([], seen)
    else if !es[0].accessible then ScanEntries(es[1..], seen, windows)
    else
      var record := Normalize(es[0].path, windows);
      if record in seen then ScanEntries(es[1..], seen, windows)
      else
        var rest := ScanEntries(es[1..], seen + {record}, windows);
        Scanned([record] + rest.records, rest.seen)
  }

  /**
    What the entry loop yields: records that are distinct, none seen before,
    and together exactly the records of the accessible entries not seen
    before; the seen-set grows by exactly the records yielded.
  */
  lemma {:induction false} ScanEntriesSpec(es: seq<Entry>, seen: set<string>, windows: bool)
    ensures ScanEntries(es, seen, windows).seen == seen + Elems(ScanEntries(es, seen, windows).records)
    ensures Distinct(ScanEntries(es, seen, windows).records)
    ensures Elems(ScanEntries(es, seen, windows).records) == Records(es, windows) - seen
    decreases |es|
  {
    if es != [] {
      var e := es[0];
      assert Records(es, windows)
          == (if e.accessible then {Normalize(e.path, windows)} else {}) + Records(es[1..], windows)
      by {
        assert forall x :: x in es <==> x == e || x in es[1..];
      }
      var record := Normalize(e.path, windows);
      if !e.accessible || record in seen {
        ScanEntriesSpec(es[1..], seen, windows);
      } else {
        ScanEntriesSpec(es[1..], seen + {record}, windows);
        var rest := ScanEntries(es[1..], seen + {record}, windows);
        assert ScanEntries(es, seen, windows) == Scanned([record] + rest.records, rest.seen);
        assert Elems([record] + rest.records) == {record} + Elems(rest.records) by {
          assert forall x :: x in [record] + rest.records <==> x == record || x in rest.records;
        }
      }
    }
  }

  /** The records a directory can contribute: none when the probe fails on it. */
  function DirectoryRecords(d: Directory, windows: bool): set<string>
  {
    if d.accessible then Records(Reached(d), windows) else {}
  }

  /**
    `_scan_directory`: an inaccessible directory yields nothing; otherwise the
    entries reached before any enumeration error are scanned.
  */
  function ScanDirectory(d: Directory, seen: set<string>, windows: bool): (r: Scanned)
    ensures !d.accessible ==> r == Scanned([], seen)
    ensures seen <= r.seen
  {
    if !d.accessible then Scanned([], seen) else ScanEntries(Reached(d), seen, windows)
  }

  /**
    An inaccessible directory yields nothing and leaves the seen-set as it
    was.  Any directory yields distinct records, none seen before, that are
    exactly its records not seen before, and the seen-set grows by them.
  */
  lemma ScanDirectorySpec(d: Directory, seen: set<string>, windows: bool)
    ensures !d.accessible ==> ScanDirectory(d, seen, windows) == Scanned([], seen)
    ensures ScanDirectory(d, seen, windows).seen == seen + Elems(ScanDirectory(d, seen, windows).records)
    ensures Distinct(ScanDirectory(d, seen, windows).records)
    ensures Elems(ScanDirectory(d, seen, windows).records) == DirectoryRecords(d, windows) - seen
  {
    if d.accessible {
      ScanEntriesSpec(Reached(d), seen, windows);
    }
  }

  /**
    Scanning two pieces of an entry sequence one after the other, the second
    starting from the seen-set the first left, is scanning their concatenation.
  */
  lemma {:induction false} ScanEntriesAppend(a: seq<Entry>, b: seq<Entry>, seen: set<string>, windows: bool)
    ensures ScanEntries(a + b, seen, windows).records
         == ScanEntries(a, seen, windows).records + ScanEntries(b, ScanEntries(a, seen, windows).seen, windows).records
    ensures ScanEntries(a + b, seen, windows).seen
         == ScanEntries(b, ScanEntries(a, seen, windows).seen, windows).seen
  {
    if a == [] {
      assert a + b == b;
    } else {
      var e := a[0];
      assert (a + b)[0] == e;
      assert (a + b)[1..] == a[1..] + b;
      var record := Normalize(e.path, windows);
      if !e.accessible {
        ScanEntriesAppend(a[1..], b, seen, windows);
      } else if record in seen {
        ScanEntriesAppend(a[1..], b, seen, windows);
      } else {
        ScanEntriesAppend(a[1..], b, seen + {record}, windows);
      }
    }
  }

  /**
    An enumeration error only cuts a directory's output short: what it yields
    is a prefix of what the complete enumeration would have yielded.
  */
  lemma TruncatedScanIsPrefix(d: Directory, seen: set<string>, windows: bool)
    ensures ScanDirectory(d, seen, windows).records <= ScanEntries(d.entries, seen, windows).records
  {
    if d.accessible {
      var k := |Reached(d)|;
      assert d.entries == Reached(d) + d.entries[k..];
      ScanEntriesAppend(Reached(d), d.entries[k..], seen, windows);
    }
  }

  /** The records a partition can contribute, directory by directory. */
  function PartitionRecords(dirs: seq<Directory>, windows: bool): set<string>
  {
    if dirs == [] then {}
    else PartitionRecords(dirs[..|dirs| - 1], windows) + DirectoryRecords(dirs[|dirs| - 1], windows)
  }

  /** A record belongs to a partition exactly when it belongs to one of its directories. */
  lemma {:induction false} PartitionRecordsMembership(dirs: seq<Directory>, windows: bool, record: string)
    ensures record in PartitionRecords(dirs, windows) <==>
      exists d :: d in dirs && record in DirectoryRecords(d, windows)
  {
    if dirs != [] {
      var init := dirs[..|dirs| - 1];
      PartitionRecordsMembership(init, windows, record);
      assert dirs == init + [dirs[|dirs| - 1]];
      assert forall d :: d in dirs <==> d == dirs[|dirs| - 1] || d in init;
    }
  }

  /** All directories of one partition, in order, sharing one seen-set. */
  function ScanPartition(dirs: seq<Directory>, seen: set<string>, windows: bool): (r: Scanned)
    ensures seen <= r.seen
    ensures dirs == [] ==> r.records == []
  {
    if dirs == [] then Scanned([], seen)
    else
      var init := ScanPartition(dirs[..|dirs| - 1], seen, windows);
      var last := ScanDirectory(dirs[|dirs| - 1], init.seen, windows);
      Scanned(init.records + last.records, last.seen)
  }

  /**
    A directory whose scan failed does not stop the later ones: the records a
    partition yields are distinct, none seen before, and exactly the
    partition's records not seen before; the seen-set grows by them.
  */
  lemma {:induction false} ScanPartitionSpec(dirs: seq<Directory>, seen: set<string>, windows: bool)
    ensures ScanPartition(dirs, seen, windows).seen == seen + Elems(ScanPartition(dirs, seen, windows).records)
    ensures Distinct(ScanPartition(dirs, seen, windows).records)
    ensures Elems(ScanPartition(dirs, seen, windows).records) == PartitionRecords(dirs, windows) - seen
  {
    if dirs != [] {
      var d := dirs[|dirs| - 1];
      var init := ScanPartition(dirs[..|dirs| - 1], seen, windows);
      var last := ScanDirectory(d, init.seen, windows);
      ScanPartitionSpec(dirs[..|dirs| - 1], seen, windows);
      ScanDirectorySpec(d, init.seen, windows);
      assert ScanPartition(dirs, seen, windows) == Scanned(init.records + last.records, last.seen);
      assert Elems(init.records + last.records) == Elems(init.records) + Elems(last.records) by {
        assert forall x :: x in init.records + last.records <==> x in init.records || x in last.records;
      }
      var all := init.records + last.records;
      forall i, j | 0 <= i < j < |all| ensures all[i] != all[j] {
        if j >= |init.records| && i < |init.records| {
          assert all[i] in init.seen;
          assert all[j] in last.records;
        }
      }
    }
  }

  /** Writing records to an open file one at a time appends their concatenation. */
  method WriteRecords(file: string, records: seq<string>) returns (file': string)
    ensures file' == file + Concat(records)
  {
    file' := file;
    for k := 0 to |records|
      invariant file' == file + Concat(records[..k])
    {
      assert records[..k + 1] == records[..k] + [records[k]];
      ConcatSnoc(records[..k], records[k]);
      file' := file' + records[k];
    }
    assert records[..|records|] == records;
  }

  /**
    `_process_chunk`: one worker scans its partition's directories in order
    with its own seen-set, starting empty, and writes every yielded record to
    its temp file as soon as it is yielded.  The file holds the concatenation
    of the records, which are pairwise distinct and are exactly the records
    of the partition.
  */
  method ProcessChunk(dirs: seq<Directory>, windows: bool) returns (records: seq<string>, file: string)
    ensures records == ScanPartition(dirs, {}, windows).records
    ensures Distinct(records)
    ensures Elems(records) == PartitionRecords(dirs, windows)
    ensures file == Concat(records)
  {
    var seen: set<string> := {};
    records, file := [], [];
    for i := 0 to |dirs|
      invariant ScanPartition(dirs[..i], {}, windows).records == records
      invariant ScanPartition(dirs[..i], {}, windows).seen == seen
      invariant file == Concat(records)
    {
      assert dirs[..i + 1][..i] == dirs[..i];
      var yielded := ScanDirectory(dirs[i], seen, windows);
      file := WriteRecords(file, yielded.records);
      ConcatAppend(records, yielded.records);
      records, seen := records + yielded.records, yielded.seen;
    }
    assert dirs[..|dirs|] == dirs;
    ScanPartitionSpec(dirs, {}, windows);
  }
}
