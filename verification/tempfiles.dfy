/**
  The cleanup half of `_temp_file_manager`: on every exit from the scan, each
  listed temp file that exists is deleted.  Which deletions raise is an input;
  a failed deletion is logged and the loop goes on to the next file.
*/
module TempFiles {
  import opened Seqs

  /** The filesystem once every listed file has been deleted, except the ones whose deletion raised. */
  function Cleaned<K(!new), T>(fs: map<K, seq<T>>, listed: seq<K>, undeletable: set<K>): (r: map<K, seq<T>>)
    ensures forall f :: f in r <==> f in fs && (f !in listed || f in undeletable)
    ensures forall f :: f in r ==> r[f] == fs[f]
  {
    map f | f in fs && (f !in listed || f in undeletable) :: fs[f]
  }

  /**
    The `finally` block: a listed file that exists and can be deleted is gone
    afterwards, every other file is kept with its contents, and the logged
    errors are exactly the listed existing files whose deletion raised.
  */
  method Cleanup<K(!new), T>(fs: map<K, seq<T>>, listed: seq<K>, undeletable: set<K>)
    returns (fs': map<K, seq<T>>, errors: seq<K>)
    ensures forall f :: f in listed && f !in undeletable ==> f !in fs'
    ensures forall f :: f in fs' <==> f in fs && (f !in listed || f in undeletable)
    ensures forall f :: f in fs' ==> fs'[f] == fs[f]
    ensures fs' == Cleaned(fs, listed, undeletable)
    ensures Elems(errors) == Elems(listed) * undeletable * fs.Keys
  {
    fs', errors := fs, [];
    for i := 0 to |listed|
      invariant forall f :: f in fs' <==> f in fs && (f !in listed[..i] || f in undeletable)
      invariant forall f :: f in fs' ==> fs'[f] == fs[f]
      invariant Elems(errors) == Elems(listed[..i]) * undeletable * fs.Keys
    {
      assert listed[..i + 1] == listed[..i] + [listed[i]];
      var f := listed[i];
      assert Elems(listed[..i + 1]) == Elems(listed[..i]) + {f};
      if f in fs' {
        if f in undeletable {
          assert Elems(errors + [f]) == Elems(errors) + {f};
          errors := errors + [f];
        } else {
          fs' := fs' - {f};
        }
      }
    }
    assert listed[..|listed|] == listed;
  }
}
