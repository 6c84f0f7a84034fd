/**
 * Index arithmetic shared by the dataset pool: `arange`, gathering by an
 * index list, boolean masks and `masked_select`, and Python's `[:n]` slice.
 */
module Indexing {

  /** `torch.arange(n)` */
  function Range(n: nat): (r: seq<int>)
    ensures |r| == n
    ensures forall i :: 0 <= i < n ==> r[i] == i
  {
    seq(n, i => i)
  }

  predicate InRange(idx: seq<int>, n: int)
  {
    forall k :: 0 <= k < |idx| ==> 0 <= idx[k] < n
  }

  /** `s[idx]` for an integer index tensor. */
  function Gather<T>(s: seq<T>, idx: seq<int>): (r: seq<T>)
    requires InRange(idx, |s|)
    ensures |r| == |idx|
    ensures forall k :: 0 <= k < |idx| ==> r[k] == s[idx[k]]
  {
    seq(|idx|, k requires 0 <= k < |idx| => s[idx[k]])
  }

  predicate Increasing(s: seq<int>)
  {
    forall i, j :: 0 <= i < j < |s| ==> s[i] < s[j]
  }

  predicate Distinct<T(==)>(s: seq<T>)
  {
    forall i, j :: 0 <= i < j < |s| ==> s[i] != s[j]
  }

  /** The shape of `torch.randperm(n)`: every position below n exactly once. */
  predicate IsPermutation(p: seq<int>, n: nat)
  {
    |p| == n && InRange(p, n) && Distinct(p)
  }

  /** The number of elements `s[:n]` keeps, for Python's slice semantics. */
  function SliceEnd(len: nat, n: int): (k: nat)
    ensures k <= len
    ensures 0 <= n ==> k == if n < len then n else len
    ensures n < 0 ==> k == if len + n > 0 then len + n else 0
  {
    if n >= 0 then (if n < len then n else len)
    else if len + n > 0 then len + n else 0
  }

  /** The mask `set_substract` builds: true except at the positions listed in `drop`. */
  function Mask(n: nat, drop: seq<int>): (m: seq<bool>)
    ensures |m| == n
  {
    seq(n, i => i !in drop)
  }

  /** `torch.masked_select`: the elements whose mask entry is true, in order. */
  function MaskSelect<T>(s: seq<T>, m: seq<bool>): seq<T>
    requires |s| == |m|
  {
    if s == [] then [] else (if m[0] then [s[0]] else []) + MaskSelect(s[1..], m[1..])
  }

  /** The number of true entries of a mask. */
  function TrueCount(m: seq<bool>): nat
  {
    if m == [] then 0 else (if m[0] then 1 else 0) + TrueCount(m[1..])
  }

  /** The distinct positions a removal list names. */
  function PositionSet(drop: seq<int>): set<int>
  {
    set x | x in drop
  }

  lemma {:induction false} MaskSelectLength<T>(s: seq<T>, m: seq<bool>)
    requires |s| == |m|
    ensures |MaskSelect(s, m)| == TrueCount(m)
  {
    if s != [] {
      MaskSelectLength(s[1..], m[1..]);
    }
  }

  /** An element survives the selection exactly when some position holding it is kept. */
  lemma {:induction false} MaskSelectMembers<T>(s: seq<T>, m: seq<bool>)
    requires |s| == |m|
    ensures forall x :: x in MaskSelect(s, m) <==> exists i :: 0 <= i < |s| && m[i] && s[i] == x
  {
    if s != [] {
      MaskSelectMembers(s[1..], m[1..]);
      forall x
        ensures x in MaskSelect(s, m) <==> exists i :: 0 <= i < |s| && m[i] && s[i] == x
      {
        if x in MaskSelect(s[1..], m[1..]) {
          var i :| 0 <= i < |s| - 1 && m[1..][i] && s[1..][i] == x;
          assert m[i + 1] && s[i + 1] == x;
        }
        if exists i :: 0 <= i < |s| && m[i] && s[i] == x {
          var i :| 0 <= i < |s| && m[i] && s[i] == x;
          if i > 0 {
            assert m[1..][i - 1] && s[1..][i - 1] == x;
          }
        }
      }
    }
  }

  /** Selecting from an increasing sequence keeps it increasing. */
  lemma {:induction false} MaskSelectIncreasing(s: seq<int>, m: seq<bool>)
    requires |s| == |m| && Increasing(s)
    ensures Increasing(MaskSelect(s, m))
  {
    if s != [] {
      MaskSelectIncreasing(s[1..], m[1..]);
      MaskSelectMembers(s[1..], m[1..]);
      var rest := MaskSelect(s[1..], m[1..]);
      forall k | 0 <= k < |rest|
        ensures s[0] < rest[k]
      {
        assert rest[k] in rest;
        var i :| 0 <= i < |s| - 1 && m[1..][i] && s[1..][i] == rest[k];
      }
    }
  }

  /** Gathering at the kept positions of `0..|s|-1` is selecting from `s` directly. */
  lemma {:induction false} GatherMaskedRange<T>(s: seq<T>, m: seq<bool>, offset: nat)
    requires |m| + offset == |s|
    ensures InRange(MaskSelect(RangeFrom(offset, |m|), m), |s|)
    ensures Gather(s, MaskSelect(RangeFrom(offset, |m|), m)) == MaskSelect(s[offset..], m)
    decreases |m|
  {
    var r := RangeFrom(offset, |m|);
    if m != [] {
      assert r[1..] == RangeFrom(offset + 1, |m| - 1);
      GatherMaskedRange(s, m[1..], offset + 1);
      assert s[offset..][1..] == s[offset + 1..];
    }
  }

  /** `offset, offset + 1, ..., offset + n - 1` */
  function RangeFrom(offset: nat, n: nat): (r: seq<int>)
    ensures |r| == n
    ensures forall i :: 0 <= i < n ==> r[i] == offset + i
  {
    seq(n, i => offset + i)
  }

  lemma GatherMaskRange<T>(s: seq<T>, m: seq<bool>)
    requires |m| == |s|
    ensures InRange(MaskSelect(Range(|s|), m), |s|)
    ensures Gather(s, MaskSelect(Range(|s|), m)) == MaskSelect(s, m)
  {
    assert Range(|s|) == RangeFrom(0, |s|);
    GatherMaskedRange(s, m, 0);
  }

  /** Removing the listed positions keeps `n - |distinct positions|` elements: duplicates are harmless. */
  lemma {:induction false} MaskCount(n: nat, drop: seq<int>)
    requires InRange(drop, n)
    ensures TrueCount(Mask(n, drop)) == n - |PositionSet(drop)|
  {
    MaskCountUpTo(n, drop, n);
    assert Mask(n, drop)[..n] == Mask(n, drop);
    forall x | x in drop
      ensures 0 <= x < n
    {
      var k :| 0 <= k < |drop| && drop[k] == x;
    }
    assert (set x | x in drop && 0 <= x < n) == PositionSet(drop);
  }

  lemma {:induction false} TrueCountAppend(m: seq<bool>, b: bool)
    ensures TrueCount(m + [b]) == TrueCount(m) + (if b then 1 else 0)
  {
    if m != [] {
      assert (m + [b])[1..] == m[1..] + [b];
      TrueCountAppend(m[1..], b);
    }
  }

  lemma {:induction false} MaskCountUpTo(n: nat, drop: seq<int>, k: nat)
    requires k <= n
    ensures TrueCount(Mask(n, drop)[..k]) == k - |set x | x in drop && 0 <= x < k|
  {
    var dropped := set x | x in drop && 0 <= x < k;
    if k == 0 {
      assert dropped == {};
    } else {
      MaskCountUpTo(n, drop, k - 1);
      var before := set x | x in drop && 0 <= x < k - 1;
      assert Mask(n, drop)[..k] == Mask(n, drop)[..k - 1] + [Mask(n, drop)[k - 1]];
      TrueCountAppend(Mask(n, drop)[..k - 1], Mask(n, drop)[k - 1]);
      if k - 1 in drop {
        assert dropped == before + {k - 1};
      } else {
        assert dropped == before;
      }
    }
  }

  /** The kept positions of `0..n-1`: increasing, exactly the positions not listed, `n - |distinct listed|` of them. */
  lemma KeptPositions(n: nat, drop: seq<int>)
    requires InRange(drop, n)
    ensures var kept := MaskSelect(Range(n), Mask(n, drop));
      && Increasing(kept)
      && InRange(kept, n)
      && (forall j :: j in kept <==> 0 <= j < n && j !in drop)
      && |kept| == n - |PositionSet(drop)|
  {
    var kept := MaskSelect(Range(n), Mask(n, drop));
    MaskSelectIncreasing(Range(n), Mask(n, drop));
    MaskSelectMembers(Range(n), Mask(n, drop));
    MaskSelectLength(Range(n), Mask(n, drop));
    MaskCount(n, drop);
    forall k | 0 <= k < |kept|
      ensures 0 <= kept[k] < n
    {
      assert kept[k] in kept;
    }
    forall j
      ensures j in kept <==> 0 <= j < n && j !in drop
    {
      if 0 <= j < n && j !in drop {
        assert Mask(n, drop)[j] && Range(n)[j] == j;
      }
    }
  }

  /** A list without repeats names as many distinct positions as it has entries. */
  lemma {:induction false} DistinctCard(s: seq<int>)
    requires Distinct(s)
    ensures |PositionSet(s)| == |s|
  {
    if s != [] {
      var last := s[|s| - 1];
      var init := s[..|s| - 1];
      assert Distinct(init);
      DistinctCard(init);
      assert s == init + [last];
      assert PositionSet(s) == PositionSet(init) + {last};
      forall k | 0 <= k < |init| ensures init[k] != last {
        assert s[k] != s[|s| - 1];
      }
      assert last !in PositionSet(init);
    }
  }

  /** Gathering an increasing sequence at increasing positions stays increasing. */
  lemma GatherIncreasing(s: seq<int>, idx: seq<int>)
    requires Increasing(s) && InRange(idx, |s|) && Increasing(idx)
    ensures Increasing(Gather(s, idx))
  {
    var g := Gather(s, idx);
    forall i, j | 0 <= i < j < |g| ensures g[i] < g[j] {
      assert idx[i] < idx[j];
    }
  }

  /** Gathering an increasing sequence at distinct positions gives distinct values. */
  lemma GatherDistinct(s: seq<int>, idx: seq<int>)
    requires Increasing(s) && InRange(idx, |s|) && Distinct(idx)
    ensures Distinct(Gather(s, idx))
  {
    var g := Gather(s, idx);
    forall i, j | 0 <= i < j < |g| ensures g[i] != g[j] {
      if idx[i] < idx[j] {
        assert s[idx[i]] < s[idx[j]];
      } else {
        assert s[idx[j]] < s[idx[i]];
      }
    }
  }

  /** Gathering twice is gathering once at the composed positions. */
  lemma GatherGather<T>(s: seq<T>, first: seq<int>, second: seq<int>)
    requires InRange(first, |s|) && InRange(second, |first|)
    ensures InRange(Gather(first, second), |s|)
    ensures Gather(Gather(s, first), second) == Gather(s, Gather(first, second))
  {
  }
}
