/**
  The round-robin split of the subdirectory list in `DirectoryScanner.scan`:
  partition `i` of `n` is `list(islice(subdirs, i, None, n))`.
*/
module Partition {
  import opened Seqs

  /** `islice(s, start, None, step)`: the elements at `start`, `start + step`, `start + 2*step`, ... */
  function Stride<T>(s: seq<T>, start: nat, step: nat): (r: seq<T>)
    requires step >= 1
    ensures r != [] ==> start < |s| && |r| <= |s| - start
    ensures forall x :: x in r ==> x in s
    decreases |s| - start
  {
    if start >= |s| then [] else [s[start]] + Stride(s, start + step, step)
  }

  /** The `n` partitions, one per worker; some may be empty. */
  function RoundRobin<T>(s: seq<T>, n: nat): (parts: seq<seq<T>>)
    requires n >= 1
    ensures |parts| == n
  {
    seq(n, i requires 0 <= i < n => Stride(s, i, n))
  }

  /** Element `k` of a stride is the element `k` steps after its start, and nothing lies beyond the input. */
  lemma {:induction false} StrideElements<T>(s: seq<T>, start: nat, step: nat)
    requires step >= 1
    ensures forall k :: 0 <= k < |Stride(s, start, step)| ==>
      start + k * step < |s| && Stride(s, start, step)[k] == s[start + k * step]
    decreases |s| - start
  {
    if start < |s| {
      var rest := Stride(s, start + step, step);
      StrideElements(s, start + step, step);
      forall k | 1 <= k < |Stride(s, start, step)|
        ensures start + k * step < |s| && Stride(s, start, step)[k] == s[start + k * step]
      {
        assert Stride(s, start, step)[k] == rest[k - 1];
        assert start + step + (k - 1) * step == start + k * step;
      }
    }
  }

  /** Every position `start + k*step` inside the input is reached by the stride, at index `k`. */
  lemma {:induction false} StrideReaches<T>(s: seq<T>, start: nat, step: nat, k: nat)
    requires step >= 1
    requires start + k * step < |s|
    ensures k < |Stride(s, start, step)| && Stride(s, start, step)[k] == s[start + k * step]
    decreases k
  {
    if k > 0 {
      assert start + step + (k - 1) * step == start + k * step;
      StrideReaches(s, start + step, step, k - 1);
    }
  }

  /** Position `j` of the input is element `j / n` of partition `j % n`. */
  lemma PositionInPartition<T>(s: seq<T>, n: nat, j: nat)
    requires n >= 1 && j < |s|
    ensures j / n < |RoundRobin(s, n)[j % n]| && RoundRobin(s, n)[j % n][j / n] == s[j]
  {
    var i, k := j % n, j / n;
    assert i + k * n == j;
    StrideReaches(s, i, n, k);
  }

  /**
    Partition shape: partition `i` holds exactly the subdirectories at
    positions `i, i+n, i+2n, ...`, in their original order.
  */
  lemma RoundRobinShape<T>(s: seq<T>, n: nat)
    requires n >= 1
    ensures forall i, k :: 0 <= i < n && 0 <= k < |RoundRobin(s, n)[i]| ==>
      i + k * n < |s| && RoundRobin(s, n)[i][k] == s[i + k * n]
  {
    forall i | 0 <= i < n
      ensures forall k :: 0 <= k < |RoundRobin(s, n)[i]| ==>
        i + k * n < |s| && RoundRobin(s, n)[i][k] == s[i + k * n]
    {
      StrideElements(s, i, n);
    }
  }

  /** Partition coverage: the subdirectory at position `j` is element `j / n` of partition `j % n`. */
  lemma RoundRobinCoverage<T>(s: seq<T>, n: nat)
    requires n >= 1
    ensures forall j :: 0 <= j < |s| ==>
      j / n < |RoundRobin(s, n)[j % n]| && RoundRobin(s, n)[j % n][j / n] == s[j]
  {
    forall j | 0 <= j < |s|
      ensures j / n < |RoundRobin(s, n)[j % n]| && RoundRobin(s, n)[j % n][j / n] == s[j]
    {
      PositionInPartition(s, n, j);
    }
  }

  lemma InPartitionIff<T>(s: seq<T>, n: nat, i: nat, j: nat)
    requires n >= 1 && Distinct(s) && i < n && j < |s|
    ensures s[j] in RoundRobin(s, n)[i] <==> i == j % n
  {
    var part := RoundRobin(s, n)[i];
    if s[j] in part {
      var k :| 0 <= k < |part| && part[k] == s[j];
      StrideElements(s, i, n);
      assert s[i + k * n] == s[j];
      DivModUnique(j, n, k, i);
    }
    if i == j % n {
      PositionInPartition(s, n, j);
    }
  }

  lemma MulAtLeast(d: int, n: int)
    requires d >= 1 && n >= 1
    ensures d * n >= n
  {
  }

  /** Euclidean division is unique: a quotient and remainder in range are the ones `/` and `%` give. */
  lemma DivModUnique(y: int, n: int, q: int, r: int)
    requires n >= 1 && 0 <= r < n && y == q * n + r
    ensures y / n == q && y % n == r
  {
    var q', r' := y / n, y % n;
    assert y == q' * n + r';
    assert (q - q') * n == r' - r;
    if q - q' >= 1 {
      MulAtLeast(q - q', n);
    } else if q' - q >= 1 {
      MulAtLeast(q' - q, n);
    }
  }

  /**
    When the subdirectories are distinct, each lies in exactly one partition:
    the one whose index is its position modulo `n`.
  */
  lemma ExactlyOnePartition<T>(s: seq<T>, n: nat)
    requires n >= 1 && Distinct(s)
    ensures forall i, j :: 0 <= i < n && 0 <= j < |s| ==>
      (s[j] in RoundRobin(s, n)[i] <==> i == j % n)
  {
    forall i, j | 0 <= i < n && 0 <= j < |s|
      ensures s[j] in RoundRobin(s, n)[i] <==> i == j % n
    {
      InPartitionIff(s, n, i, j);
    }
  }

  lemma ResidueMatch(len: nat, i: nat, n: nat)
    requires i < n && i <= len
    ensures (len - i) % n == 0 <==> len % n == i
  {
    if (len - i) % n == 0 {
      var q := (len - i) / n;
      assert len - i == q * n + 0;
      DivModUnique(len, n, q, i);
    }
    if len % n == i {
      var q := len / n;
      assert len - i == q * n + 0;
      DivModUnique(len - i, n, q, 0);
    }
  }

  /** Whether stepping from `start` by `step` lands on `target`. */
  predicate Hits(start: nat, step: nat, target: nat)
    requires step >= 1
    decreases target - start
  {
    start == target || (start < target && Hits(start + step, step, target))
  }

  /** Starting below `n`, stepping by `n` lands on `target` exactly when `start` is its residue. */
  lemma {:induction false} HitsResidue(start: nat, n: nat, target: nat)
    requires n >= 1
    ensures Hits(start, n, target) <==> start <= target && (target - start) % n == 0
    decreases target - start
  {
    if start < target {
      HitsResidue(start + n, n, target);
      var d := target - start;
      if d >= n {
        DivModUnique(d, n, (d - n) / n + 1, (d - n) % n);
      } else {
        DivModUnique(d, n, 0, d);
      }
    }
  }

  /** Appending one element to the input appends it to the stride exactly when its position is on the stride. */
  lemma {:induction false} StrideSnoc<T>(s: seq<T>, x: T, start: nat, step: nat)
    requires step >= 1
    ensures Stride(s + [x], start, step) == Stride(s, start, step) + (if Hits(start, step, |s|) then [x] else [])
    decreases |s| - start
  {
    var t := s + [x];
    if start == |s| {
      assert Stride(t, start + step, step) == [];
      assert Stride(t, start, step) == [x];
    } else if start < |s| {
      StrideSnoc(s, x, start + step, step);
      assert t[start] == s[start];
      assert Stride(t, start, step) == [s[start]] + Stride(t, start + step, step);
      assert Stride(s, start, step) == [s[start]] + Stride(s, start + step, step);
    } else {
      assert Stride(t, start, step) == [];
    }
  }

  /** A subdirectory added at the end goes to the end of partition `|s| % n`; no other partition changes. */
  lemma RoundRobinSnoc<T>(s: seq<T>, x: T, n: nat)
    requires n >= 1
    ensures RoundRobin(s + [x], n)
         == RoundRobin(s, n)[|s| % n := RoundRobin(s, n)[|s| % n] + [x]]
  {
    var target := RoundRobin(s, n)[|s| % n := RoundRobin(s, n)[|s| % n] + [x]];
    forall i | 0 <= i < n
      ensures RoundRobin(s + [x], n)[i] == target[i]
    {
      StrideSnoc(s, x, i, n);
      HitsResidue(i, n, |s|);
      if i <= |s| {
        ResidueMatch(|s|, i, n);
      } else {
        DivModUnique(|s|, n, 0, |s|);
      }
    }
  }

  lemma {:induction false} ConcatGrowOne<T>(parts: seq<seq<T>>, j: nat, x: T)
    requires j < |parts|
    ensures multiset(Concat(parts[j := parts[j] + [x]])) == multiset(Concat(parts)) + multiset{x}
  {
    var grown := parts[j := parts[j] + [x]];
    if j == 0 {
      assert grown[1..] == parts[1..];
    } else {
      assert grown[1..] == parts[1..][j - 1 := parts[1..][j - 1] + [x]];
      ConcatGrowOne(parts[1..], j - 1, x);
    }
  }

  /**
    Partition coverage: the partitions together are a permutation of the
    subdirectory list, so their lengths add up to its length.
  */
  lemma {:induction false} RoundRobinPermutation<T>(s: seq<T>, n: nat)
    requires n >= 1
    ensures multiset(Concat(RoundRobin(s, n))) == multiset(s)
    ensures |Concat(RoundRobin(s, n))| == |s|
  {
    if s == [] {
      EmptyConcat(RoundRobin(s, n));
    } else {
      var init, x := s[..|s| - 1], s[|s| - 1];
      assert s == init + [x];
      RoundRobinPermutation(init, n);
      RoundRobinSnoc(init, x, n);
      ConcatGrowOne(RoundRobin(init, n), |init| % n, x);
    }
    assert |multiset(Concat(RoundRobin(s, n)))| == |Concat(RoundRobin(s, n))|;
  }

  lemma {:induction false} EmptyConcat<T>(parts: seq<seq<T>>)
    requires forall i :: 0 <= i < |parts| ==> parts[i] == []
    ensures Concat(parts) == []
  {
    if parts != [] {
      EmptyConcat(parts[1..]);
    }
  }
}
