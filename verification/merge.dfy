/**
  `_merge_files`: the temp files are copied, in list order, into the output
  file, each through a read-only memory map read `chunk_size` elements at a
  time.  Files are sequences of elements; the filesystem is a map from names
  to contents, and a name missing from the map is a file that does not exist.
*/
module Merge {
  import opened Wrappers
  import opened Seqs

  /**
    What a memory-mapped file does on an empty file.  `RejectEmpty` is the
    behaviour the merge is written against: mapping a zero-length file raises.
    `SkipEmpty` is the corrected merge, which passes over an empty file the
    way it passes over a missing one.
  */
  datatype EmptyFilePolicy = RejectEmpty | SkipEmpty

  /**
    `mm.read(chunkSize)` at offset `pos`: the next `chunkSize` elements, or
    fewer at the end; a negative size reads to the end and a size of 0 reads
    nothing.
  */
  function Read<T>(content: seq<T>, pos: nat, chunkSize: int): (chunk: seq<T>)
    requires pos <= |content|
    ensures pos + |chunk| <= |content| && chunk == content[pos..pos + |chunk|]
    ensures chunk == [] <==> pos == |content| || chunkSize == 0
    ensures chunkSize > 0 ==> |chunk| <= chunkSize
  {
    if chunkSize < 0 then content[pos..]
    else if pos + chunkSize <= |content| then content[pos..pos + chunkSize]
    else content[pos..]
  }

  /**
    The inner loop `for chunk in iter(lambda: mm.read(chunk_size), b'')`: the
    chunks written are non-empty, no longer than the chunk size, and together
    are the whole file, except that a chunk size of 0 ends the loop at once.
  */
  method CopyChunks<T>(content: seq<T>, chunkSize: int) returns (writes: seq<seq<T>>)
    ensures chunkSize != 0 ==> Concat(writes) == content
    ensures chunkSize == 0 ==> writes == []
    ensures forall w :: w in writes ==> |w| > 0 && (chunkSize > 0 ==> |w| <= chunkSize)
  {
    writes := [];
    var pos := 0;
    var chunk := Read(content, pos, chunkSize);
    while chunk != []
      invariant pos <= |content|
      invariant chunk == Read(content, pos, chunkSize)
      invariant Concat(writes) == content[..pos]
      invariant chunkSize == 0 ==> writes == []
      invariant forall w :: w in writes ==> |w| > 0 && (chunkSize > 0 ==> |w| <= chunkSize)
      decreases |content| - pos
    {
      ConcatSnoc(writes, chunk);
      assert content[..pos] + chunk == content[..pos + |chunk|];
      writes := writes + [chunk];
      pos := pos + |chunk|;
      chunk := Read(content, pos, chunkSize);
    }
    assert chunkSize != 0 ==> content[..pos] == content;
  }

  /** What the merge takes from one listed file: nothing when it is missing or the chunk size is 0. */
  function Piece<K, T>(fs: map<K, seq<T>>, f: K, chunkSize: int): seq<T>
  {
    if f in fs && chunkSize != 0 then fs[f] else []
  }

  /** The existing listed files, concatenated in list order. */
  function Merged<K, T>(files: seq<K>, fs: map<K, seq<T>>, chunkSize: int): seq<T>
  {
    if files == [] then []
    else Merged(files[..|files| - 1], fs, chunkSize) + Piece(fs, files[|files| - 1], chunkSize)
  }

  /** The listed file at `i` exists and is empty. */
  predicate EmptyAt<K, T>(files: seq<K>, fs: map<K, seq<T>>, i: nat)
    requires i < |files|
  {
    files[i] in fs && fs[files[i]] == []
  }

  /** The position of the first listed file that exists and is empty, if any. */
  function FirstEmpty<K, T>(files: seq<K>, fs: map<K, seq<T>>): (r: Option<nat>)
    ensures r.Some? ==> r.value < |files| && EmptyAt(files, fs, r.value)
    ensures r.Some? ==> forall i :: 0 <= i < r.value ==> !EmptyAt(files, fs, i)
    ensures r.None? ==> forall i :: 0 <= i < |files| ==> !EmptyAt(files, fs, i)
  {
    if files == [] then None
    else if files[0] in fs && fs[files[0]] == [] then Some(0)
    else
      var rest := FirstEmpty(files[1..], fs);
      assert forall i :: 1 <= i < |files| ==> (EmptyAt(files, fs, i) <==> EmptyAt(files[1..], fs, i - 1));
      match rest
      case None => None
      case Some(j) => Some(j + 1)
  }

  /**
    `_merge_files`: the output receives, in list order, the chunks of every
    listed file that exists.  Under `RejectEmpty` the first existing empty
    file stops the merge, and the output holds what the files before it
    contributed; under `SkipEmpty` the merge always completes.
  */
  method MergeFiles<K, T>(files: seq<K>, fs: map<K, seq<T>>, chunkSize: int, policy: EmptyFilePolicy)
    returns (output: seq<T>, writes: seq<seq<T>>, failedAt: Option<nat>)
    ensures policy == SkipEmpty ==> failedAt == None
    ensures policy == RejectEmpty ==> failedAt == FirstEmpty(files, fs)
    ensures failedAt.None? ==> output == Merged(files, fs, chunkSize)
    ensures failedAt.Some? ==> failedAt.value < |files| && output == Merged(files[..failedAt.value], fs, chunkSize)
    ensures Concat(writes) == output
    ensures forall w :: w in writes ==> |w| > 0 && (chunkSize > 0 ==> |w| <= chunkSize)
  {
    output, writes, failedAt := [], [], None;
    for i := 0 to |files|
      invariant output == Merged(files[..i], fs, chunkSize)
      invariant Concat(writes) == output
      invariant forall w :: w in writes ==> |w| > 0 && (chunkSize > 0 ==> |w| <= chunkSize)
      invariant policy == RejectEmpty ==> forall j :: 0 <= j < i ==> !EmptyAt(files, fs, j)
    {
      assert files[..i + 1][..i] == files[..i];
      if files[i] !in fs {
        continue;
      }
      var content := fs[files[i]];
      if content == [] {
        if policy == RejectEmpty {
          assert EmptyAt(files, fs, i);
          var first := FirstEmpty(files, fs);
          assert first.Some? && first.value <= i;
          failedAt := Some(i);
          return;
        }
        continue;
      }
      var chunks := CopyChunks(content, chunkSize);
      ConcatAppend(writes, chunks);
      writes := writes + chunks;
      output := output + Concat(chunks);
    }
    assert files[..|files|] == files;
  }
}
