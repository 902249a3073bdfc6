/**
  Path normalisation (`DirectoryScanner._normalize_path`).

  The filesystem calls are inputs: a `PathView` carries the entry's raw string
  form and the result of asking for its absolute form, which is `None` when that
  request raised.  The platform test is the `windows` flag.
*/
module Paths {
  import opened Wrappers

  /** The two separators that open a UNC path, `\\server\share`. */
  const UncLead: string := "\\\\"
  /** The Win32 extended-length prefix for local paths, `\\?\`. */
  const LongPrefix: string := "\\\\?\\"
  /** The Win32 extended-length prefix for UNC paths, `\\?\UNC\`. */
  const LongUncPrefix: string := "\\\\?\\UNC\\"
  /** A Windows path that would be mistaken for a UNC one once prefixed, `UNC\`. */
  const UncWord: string := "UNC\\"

  predicate StartsWith(s: string, prefix: string)
  {
    |prefix| <= |s| && s[..|prefix|] == prefix
  }

  /** What the scanner can learn about one entry: its raw text and, unless that failed, its absolute form. */
  datatype PathView = PathView(raw: string, absolute: Option<string>)

  /**
    The output record for one entry.  Every branch ends with exactly one line
    terminator added to a body: the raw text when resolution failed, the
    absolute path on POSIX, and an extended-length form on Windows.
  */
  function Normalize(p: PathView, windows: bool): (r: string)
    ensures |r| > 0 && r[|r| - 1] == '\n'
    ensures p.absolute.None? ==> Body(r) == p.raw
    ensures p.absolute.Some? && !windows ==> Body(r) == p.absolute.value
    ensures p.absolute.Some? && windows ==> StartsWith(r, LongPrefix)
  {
    match p.absolute
    case None => p.raw + "\n"
    case Some(a) =>
      if windows then
        if StartsWith(a, UncLead) then LongUncPrefix + a[|UncLead|..] + "\n"
        else LongPrefix + a + "\n"
      else a + "\n"
  }

  /** A record without its final terminator. */
  function Body(record: string): string
    requires |record| > 0
  {
    record[..|record| - 1]
  }

  /** Undoes the extended-length prefixing: the path a Windows record body names. */
  function LongPathTarget(body: string): string
  {
    if StartsWith(body, LongUncPrefix) then UncLead + body[|LongUncPrefix|..]
    else if StartsWith(body, LongPrefix) then body[|LongPrefix|..]
    else body
  }

  /**
    On Windows a UNC path, and only a UNC path, gets the `\\?\UNC\` prefix
    in place of its leading `\\`, and the absolute path can be read back
    from its record.  The one exception is a path that begins with `UNC\`
    (an absolute Windows path begins with a drive letter or with `\\`, so
    it never does).
  */
  lemma WindowsRoundTrip(p: PathView)
    requires p.absolute.Some? && !StartsWith(p.absolute.value, UncWord)
    ensures StartsWith(Body(Normalize(p, true)), LongUncPrefix) <==> StartsWith(p.absolute.value, UncLead)
    ensures LongPathTarget(Body(Normalize(p, true))) == p.absolute.value
  {
    var a := p.absolute.value;
    var body := Body(Normalize(p, true));
    if StartsWith(a, UncLead) {
      assert body == LongUncPrefix + a[2..];
      assert StartsWith(body, LongUncPrefix);
      assert UncLead + a[2..] == a;
    } else {
      assert body == LongPrefix + a;
      assert body[|LongPrefix|..] == a;
    }
  }

  /**
    Two resolved entries get the same record exactly when their absolute paths
    are equal, so deduplicating records deduplicates absolute paths.
  */
  lemma NormalizeInjective(p: PathView, q: PathView, windows: bool)
    requires p.absolute.Some? && q.absolute.Some?
    requires windows ==> !StartsWith(p.absolute.value, UncWord) && !StartsWith(q.absolute.value, UncWord)
    ensures Normalize(p, windows) == Normalize(q, windows) <==> p.absolute == q.absolute
  {
    if windows {
      WindowsRoundTrip(p);
      WindowsRoundTrip(q);
    }
  }

  /** The `UNC\` exception is real: these two different paths share a record. */
  lemma UncWordCollides()
    ensures Normalize(PathView("UNC\\s", Some("UNC\\s")), true)
         == Normalize(PathView("\\\\s", Some("\\\\s")), true)
  {
    assert StartsWith("\\\\s", UncLead);
    assert "UNC\\s"[0] != UncLead[0];
  }

  /** A record read back as a path that is already absolute, so it resolves to itself. */
  function Reparse(record: string): PathView
    requires |record| > 0
  {
    PathView(Body(record), Some(Body(record)))
  }

  /** On POSIX normalising a record again gives the same record. */
  lemma PosixIdempotent(p: PathView)
    ensures Normalize(Reparse(Normalize(p, false)), false) == Normalize(p, false)
  {
    var r := Normalize(p, false);
    assert Body(r) + "\n" == r;
  }

  /**
    On Windows it never does: a record read back as a resolved path is
    prefixed again, so it grows.
  */
  lemma WindowsNotIdempotent(p: PathView)
    ensures |Normalize(Reparse(Normalize(p, true)), true)| > |Normalize(p, true)|
  {
    var r := Normalize(p, true);
    var again := Normalize(Reparse(r), true);
    if StartsWith(Body(r), UncLead) {
      assert |again| == |LongUncPrefix| + |Body(r)| - |UncLead| + 1;
    } else {
      assert |again| == |LongPrefix| + |Body(r)| + 1;
    }
  }
}
