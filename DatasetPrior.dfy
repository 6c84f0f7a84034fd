/**
 * The dataset-backed prior (`DatasetPrior`, with its base `Featurise`, in
 * SOBER/_prior.py): a finite table of binary rows and labels used as a pool
 * that is sampled without replacement. Rows are found through the index of
 * their string keys; every `sample` and `query` removes the rows it returns
 * and renumbers the survivors `0..n_available-1`.
 *
 * The ghost state records, for each surviving position, the row of the
 * original dataset it holds (`rows`) and the original rows already handed
 * out (`consumed`), so that "a removed row never comes back" can be stated.
 */
module DatasetPool {
  import opened Wrappers
  import opened Indexing
  import opened Featurise

  datatype PoolError =
    | KeyNotFound(row: nat, key: string)  // `get_loc` raised: no row has this key
    | EmptyIndex                          // an empty list of matches becomes a float tensor, which cannot index
    | Undecodable                         // `featurise` cannot stack the selected keys

  /** What `find_matching_row` produces: one index per query row, and the rows it reports as misspecified. */
  datatype Matched = Matched(detected: seq<int>, misspecified: seq<int>)

  /**
   * The ghost bookkeeping of the pool: the surviving original rows are
   * increasing (so distinct and in dataset order), none of them is consumed,
   * and together with the consumed rows they cover the whole dataset.
   */
  ghost predicate Tracks(rows: seq<int>, consumed: set<int>, total: nat)
  {
    && Increasing(rows)
    && InRange(rows, total)
    && (forall i :: 0 <= i < |rows| ==> rows[i] !in consumed)
    && (forall r :: 0 <= r < total ==> r in consumed || r in rows)
    && (forall r :: r in consumed ==> 0 <= r < total)
  }

  /** The original rows at the positions a reset does not keep. */
  ghost function Dropped(rows: seq<int>, ai: seq<int>): set<int>
  {
    set j | 0 <= j < |rows| && j !in ai :: rows[j]
  }

  /** Keeping increasing positions and consuming the others preserves the bookkeeping. */
  lemma TracksAfterReset(rows: seq<int>, consumed: set<int>, total: nat, ai: seq<int>)
    requires Tracks(rows, consumed, total) && InRange(ai, |rows|) && Increasing(ai)
    ensures Tracks(Gather(rows, ai), consumed + Dropped(rows, ai), total)
  {
    var kept := Gather(rows, ai);
    var gone := consumed + Dropped(rows, ai);
    GatherIncreasing(rows, ai);
    forall i | 0 <= i < |kept|
      ensures kept[i] !in gone
    {
      forall j | 0 <= j < |rows| && j !in ai
        ensures rows[j] != kept[i]
      {
        if j < ai[i] {
          assert rows[j] < rows[ai[i]];
        } else {
          assert j != ai[i];
          assert rows[ai[i]] < rows[j];
        }
      }
    }
    forall r | 0 <= r < total && r !in gone
      ensures r in kept
    {
      var j :| 0 <= j < |rows| && rows[j] == r;
      assert j in ai;
      var k :| 0 <= k < |ai| && ai[k] == j;
      assert kept[k] == r;
    }
    forall r | r in gone ensures 0 <= r < total {
      if r !in consumed {
        var j :| 0 <= j < |rows| && j !in ai && rows[j] == r;
      }
    }
  }

  /** What `find_matching_row` yields for the given index and query keys. */
  function MatchRows(keys: seq<string>, queries: seq<string>): (r: Result<Matched, PoolError>)
    ensures r.Failure? ==> r.error.KeyNotFound? && r.error.row < |queries|
    ensures r.Failure? ==> r.error.key == queries[r.error.row] && r.error.key !in keys
    ensures r.Success? ==> |r.value.detected| == |queries| && forall i :: 0 <= i < |queries| ==> queries[i] in keys
  {
    var locs := Locations(keys, queries);
    match FirstAbsent(locs)
    case Some(i) => Failure(KeyNotFound(i, queries[i]))
    case None => Success(Matched(Matches(keys, queries), SharedRows(locs)))
  }

  /**
   * `find_matching_row` fails exactly when some query key is missing, and
   * names the first one; otherwise it returns one index per query row, the
   * row holding the key when there is one such row, and 0, with the query
   * row reported, when the key is shared.
   */
  lemma MatchRowsMeaning(keys: seq<string>, queries: seq<string>)
    ensures var r := MatchRows(keys, queries);
      && (r.Failure? <==> exists i :: 0 <= i < |queries| && queries[i] !in keys)
      && (r.Failure? ==> r.error.KeyNotFound? && r.error.row < |queries| && r.error.key == queries[r.error.row])
      && (r.Failure? ==> r.error.key !in keys && forall i :: 0 <= i < r.error.row ==> queries[i] in keys)
      && (r.Success? ==> |r.value.detected| == |queries| && InRange(r.value.detected, |keys|))
      && (r.Success? ==> forall i :: 0 <= i < |queries| && Lookup(keys, queries[i]).At? ==>
            keys[r.value.detected[i]] == queries[i])
      && (r.Success? ==> forall i :: i in r.value.misspecified <==>
            0 <= i < |queries| && Lookup(keys, queries[i]).Shared?)
      && (r.Success? ==> forall i :: i in r.value.misspecified ==> r.value.detected[i] == 0)
  {
    var locs := Locations(keys, queries);
    forall i | 0 <= i < |queries| {
      LookupMeaning(keys, queries[i]);
    }
    if FirstAbsent(locs).None? {
      MatchesSound(keys, queries);
      SharedRowsMeaning(locs);
    }
  }

  /** Each of `features` is the row decoded from the key at the matching position of `idx`. */
  ghost predicate DecodedAt(features: seq<seq<real>>, keys: seq<string>, idx: seq<int>)
  {
    && |features| == |idx|
    && forall i :: 0 <= i < |idx| ==>
         && 0 <= idx[i] < |keys|
         && FeatureToString(features[i]) == keys[idx[i]]
         && features[i] == KeyRow(keys[idx[i]])
  }

  /** Each of `features` is the original dataset row held at the matching position of `idx`. */
  ghost predicate OriginalAt(features: seq<seq<real>>, originals: seq<seq<real>>, rows: seq<int>, idx: seq<int>)
  {
    && |features| == |idx|
    && forall i :: 0 <= i < |idx| ==>
         && 0 <= idx[i] < |rows|
         && 0 <= rows[idx[i]] < |originals|
         && features[i] == originals[rows[idx[i]]]
  }

  /** Removing the matched positions takes away every key that had a single row. */
  lemma UniqueMatchRemoved(keys: seq<string>, queries: seq<string>)
    requires forall i :: 0 <= i < |queries| ==> queries[i] in keys
    ensures var idx := Matches(keys, queries);
      forall i :: 0 <= i < |queries| && Lookup(keys, queries[i]).At? ==>
        queries[i] !in MaskSelect(keys, Mask(|keys|, idx))
  {
    var idx := Matches(keys, queries);
    MatchesSound(keys, queries);
    MaskSelectMembers(keys, Mask(|keys|, idx));
    forall i | 0 <= i < |queries| && Lookup(keys, queries[i]).At?
      ensures queries[i] !in MaskSelect(keys, Mask(|keys|, idx))
    {
      var key := queries[i];
      LookupMeaning(keys, key);
      forall j | 0 <= j < |keys| && keys[j] == key
        ensures !Mask(|keys|, idx)[j]
      {
        assert idx[i] == j;
      }
    }
  }

  /**
   * Distinct positions of the pool hold distinct original rows, none of them
   * consumed yet, and all of them consumed once those positions are removed.
   */
  lemma SampledRowsFresh(rows: seq<int>, consumed: set<int>, total: nat, idx: seq<int>, after: set<int>)
    requires Tracks(rows, consumed, total) && InRange(idx, |rows|) && Distinct(idx)
    requires after == consumed + set j | 0 <= j < |rows| && j in idx :: rows[j]
    ensures Distinct(Gather(rows, idx))
    ensures forall t :: t in Gather(rows, idx) ==> t !in consumed && t in after
    ensures forall t :: t in Gather(rows, idx) <==> exists j :: 0 <= j < |rows| && j in idx && rows[j] == t
  {
    GatherDistinct(rows, idx);
    var g := Gather(rows, idx);
    forall t ensures t in g <==> exists j :: 0 <= j < |rows| && j in idx && rows[j] == t {
      if t in g {
        var k :| 0 <= k < |g| && g[k] == t;
        assert idx[k] in idx && rows[idx[k]] == t;
      }
      if exists j :: 0 <= j < |rows| && j in idx && rows[j] == t {
        var j :| 0 <= j < |rows| && j in idx && rows[j] == t;
        var k :| 0 <= k < |idx| && idx[k] == j;
        assert g[k] == t;
      }
    }
  }

  class DatasetPrior {
    /** The index of the data frame: one key per available row. */
    var keys: seq<string>
    var trueTargets: seq<real>
    var availableIndex: seq<int>
    var nAvailable: nat

    /** The rows the pool was built from, and their keys. */
    ghost const originalFeatures: seq<seq<real>>
    ghost const originalKeys: seq<string>
    ghost const originalTargets: seq<real>
    /** The original row held at each available position. */
    ghost var rows: seq<int>
    /** The original rows removed so far. */
    ghost var consumed: set<int>

    ghost predicate Valid()
      reads this
    {
      && |keys| == nAvailable
      && |trueTargets| == nAvailable
      && availableIndex == Range(nAvailable)
      && |rows| == nAvailable
      && |originalTargets| == |originalKeys|
      && Tracks(rows, consumed, |originalKeys|)
      && keys == Gather(originalKeys, rows)
      && trueTargets == Gather(originalTargets, rows)
    }

    /** Every key is a digit string and all keys have one width: what a table of 0/1 rows gives. */
    ghost predicate UniformKeys()
      reads this
    {
      UniformWidth(keys)
    }

    /** The pool was built from 0/1 rows, as the library's binary priors are, keyed by their strings. */
    ghost predicate BinaryTable()
    {
      && originalKeys == Stringise(originalFeatures)
      && forall i :: 0 <= i < |originalFeatures| ==> IsBinary(originalFeatures[i])
    }

    /** In a table of 0/1 rows, every available key decodes to the original row it holds. */
    lemma BinaryRowsDecode()
      requires Valid() && BinaryTable()
      ensures forall j :: 0 <= j < nAvailable ==> KeyRow(keys[j]) == originalFeatures[rows[j]]
    {
      forall j | 0 <= j < nAvailable
        ensures KeyRow(keys[j]) == originalFeatures[rows[j]]
      {
        BinaryKeyRow(originalFeatures[rows[j]]);
      }
    }

    /**
     * `Featurise.__init__` then `DatasetPrior.__init__`: key every row, keep
     * the first `|features|` labels (indexing the labels with `arange` needs
     * at least that many), and make every row available.
     */
    constructor (features: seq<seq<real>>, targets: seq<real>)
      requires |targets| >= |features|
      ensures Valid()
      ensures keys == Stringise(features) && originalFeatures == features
      ensures trueTargets == targets[..|features|]
      ensures nAvailable == |features| && consumed == {}
      ensures (forall i :: 0 <= i < |features| ==> IsBinary(features[i])) ==> BinaryTable()
      ensures (forall i :: 0 <= i < |features| ==> IsBinary(features[i]) && |features[i]| == |features[0]|) ==> UniformKeys()
    {
      var n := |features|;
      keys := Stringise(features);
      originalFeatures := features;
      originalKeys := Stringise(features);
      originalTargets := targets[..n];
      // reset_indices(arange(n)) on the freshly keyed frame
      nAvailable := n;
      trueTargets := Gather(targets, Range(n));
      availableIndex := Range(n);
      rows := Range(n);
      consumed := {};
      new;
      assert trueTargets == targets[..n];
      forall r | 0 <= r < n ensures r in rows {
        assert rows[r] == r;
      }
      if forall i :: 0 <= i < n ==> IsBinary(features[i]) && |features[i]| == |features[0]| {
        forall i | 0 <= i < n ensures IsDigitString(keys[i]) && |keys[i]| == |features[0]| {
          BinaryRoundTrip(features[i]);
          KeyWidth(features[i]);
        }
      }
    }

    /** `reset_indices`: keep the rows at the given positions, in order, and renumber them from 0. */
    method ResetIndices(ai: seq<int>)
      requires Valid()
      requires InRange(ai, nAvailable) && Increasing(ai)
      modifies this
      ensures Valid()
      ensures nAvailable == |ai|
      ensures keys == Gather(old(keys), ai)
      ensures trueTargets == Gather(old(trueTargets), ai)
      ensures availableIndex == Range(|ai|)
      ensures rows == Gather(old(rows), ai)
      ensures consumed == old(consumed) + Dropped(old(rows), ai)
    {
      var newKeys, newTargets := Gather(keys, ai), Gather(trueTargets, ai);
      ghost var newRows, newConsumed := Gather(rows, ai), consumed + Dropped(rows, ai);
      TracksAfterReset(rows, consumed, |originalKeys|, ai);
      GatherGather(originalKeys, rows, ai);
      GatherGather(originalTargets, rows, ai);
      nAvailable, keys, trueTargets, availableIndex := |ai|, newKeys, newTargets, Range(|ai|);
      rows, consumed := newRows, newConsumed;
    }

    /**
     * `set_substract(A, B)`: a mask that is true everywhere except at the
     * positions listed in `b`, then `masked_select`. The result keeps the
     * order of `a`, and repeated positions in `b` count once.
     */
    static method SetSubtract(a: seq<int>, b: seq<int>) returns (r: seq<int>)
      requires InRange(b, |a|)
      ensures r == MaskSelect(a, Mask(|a|, b))
      ensures |r| == |a| - |PositionSet(b)|
      ensures forall x :: x in r <==> exists i :: 0 <= i < |a| && i !in b && a[i] == x
    {
      var mask := new bool[|a|](_ => true);
      for k := 0 to |b|
        invariant forall i :: 0 <= i < |a| ==> mask[i] == (i !in b[..k])
      {
        mask[b[k]] := false;
        assert b[..k + 1] == b[..k] + [b[k]];
      }
      assert b[..|b|] == b;
      assert mask[..] == Mask(|a|, b);
      r := MaskSelect(a, mask[..]);
      MaskSelectLength(a, mask[..]);
      MaskCount(|a|, b);
      MaskSelectMembers(a, mask[..]);
    }

    /** `remove_sampled_index`: drop the listed positions from the pool and renumber. */
    method RemoveSampledIndex(idx: seq<int>)
      requires Valid() && InRange(idx, nAvailable)
      modifies this
      ensures Valid()
      ensures keys == MaskSelect(old(keys), Mask(old(nAvailable), idx))
      ensures trueTargets == MaskSelect(old(trueTargets), Mask(old(nAvailable), idx))
      ensures rows == MaskSelect(old(rows), Mask(old(nAvailable), idx))
      ensures nAvailable == old(nAvailable) - |PositionSet(idx)|
      ensures consumed == old(consumed) + set j | 0 <= j < old(nAvailable) && j in idx :: old(rows)[j]
      ensures old(UniformKeys()) ==> UniformKeys()
    {
      var n := nAvailable;
      ghost var oldRows := rows;
      if UniformWidth(keys) {
        UniformSelect(keys, Mask(n, idx));
      }
      var ai := SetSubtract(availableIndex, idx);
      KeptPositions(n, idx);
      GatherMaskRange(keys, Mask(n, idx));
      GatherMaskRange(trueTargets, Mask(n, idx));
      GatherMaskRange(rows, Mask(n, idx));
      ResetIndices(ai);
      assert Dropped(oldRows, ai) == (set j | 0 <= j < n && j in idx :: oldRows[j]);
    }

    /**
     * `index2feature`: decode the keys at the given positions into feature
     * rows. Each returned row encodes back to the key it came from.
     */
    function IndexToFeature(indices: seq<int>): (r: Option<seq<seq<real>>>)
      reads this
      requires InRange(indices, |keys|)
      ensures r.Some? <==> Decodable(Gather(keys, indices))
      ensures r.Some? ==> |r.value| == |indices|
      ensures r.Some? ==> forall i :: 0 <= i < |indices| ==> FeatureToString(r.value[i]) == keys[indices[i]]
      ensures r.Some? ==> forall i :: 0 <= i < |indices| ==> r.value[i] == KeyRow(keys[indices[i]])
    {
      match FeaturiseKeys(Gather(keys, indices))
      case None => None
      case Some(v) =>
        var decoded := seq(|v|, i requires 0 <= i < |v| => Realise(v[i]));
        assert forall i :: 0 <= i < |indices| ==> FeatureToString(decoded[i]) == keys[indices[i]] by {
          forall i | 0 <= i < |indices|
            ensures FeatureToString(decoded[i]) == keys[indices[i]]
          {
            DecodeEncode(keys[indices[i]]);
          }
        }
        Some(decoded)
    }

    /**
     * `find_matching_row`: look every query row's key up in the index, then
     * collect the positions, 0 standing in for a key held by several rows.
     */
    method FindMatchingRow(x: seq<seq<real>>) returns (r: Result<Matched, PoolError>)
      ensures r == MatchRows(keys, Stringise(x))
    {
      var strings := Stringise(x);
      var locs := Locations(keys, strings);
      var missing := FirstAbsent(locs);
      if missing.Some? {
        return Failure(KeyNotFound(missing.value, strings[missing.value]));
      }
      var detected, misspecified := CollectMatches(locs);
      assert detected == Matches(keys, strings);
      r := Success(Matched(detected, misspecified));
    }

    /** The loop of `find_matching_row` over the lookups: a position is kept, anything else becomes 0 and is reported. */
    static method CollectMatches(locs: seq<Location>) returns (detected: seq<int>, misspecified: seq<int>)
      requires forall k :: 0 <= k < |locs| ==> !locs[k].Absent?
      ensures |detected| == |locs|
      ensures forall k :: 0 <= k < |locs| ==> detected[k] == MatchIndex(locs[k])
      ensures misspecified == SharedRows(locs)
    {
      detected, misspecified := [], [];
      for i := 0 to |locs|
        invariant |detected| == i
        invariant forall k :: 0 <= k < i ==> detected[k] == MatchIndex(locs[k])
        invariant misspecified == SharedRows(locs[..i])
      {
        assert locs[..i + 1][..i] == locs[..i];
        assert SharedRows(locs[..i + 1]) == SharedRows(locs[..i]) + (if locs[i].Shared? then [i] else []);
        if locs[i].At? {
          detected := detected + [locs[i].pos];
        } else {
          detected := detected + [0];
          misspecified := misspecified + [i];
        }
      }
      assert locs[..|locs|] == locs;
    }

    /**
     * `query`: the labels of the matched rows, read before removal; then the
     * matched rows leave the pool. The survivors keep their order, and a key
     * that matched a single row is no longer in the pool.
     */
    method Query(x: seq<seq<real>>) returns (r: Result<seq<real>, PoolError>)
      requires Valid()
      modifies this
      ensures Valid()
      ensures var q := Stringise(x);
        r.Failure? <==> |q| == 0 || exists i :: 0 <= i < |q| && q[i] !in old(keys)
      ensures r.Failure? ==> keys == old(keys) && trueTargets == old(trueTargets)
      ensures r.Failure? ==> nAvailable == old(nAvailable) && rows == old(rows) && consumed == old(consumed)
      ensures r.Success? ==>
        var idx := Matches(old(keys), Stringise(x));
        && InRange(idx, old(nAvailable))
        && r.value == Gather(old(trueTargets), idx)
        && keys == MaskSelect(old(keys), Mask(old(nAvailable), idx))
        && trueTargets == MaskSelect(old(trueTargets), Mask(old(nAvailable), idx))
        && nAvailable == old(nAvailable) - |PositionSet(idx)|
        && consumed == old(consumed) + set j | 0 <= j < old(nAvailable) && j in idx :: old(rows)[j]
      ensures r.Success? ==> var q := Stringise(x);
        forall i :: 0 <= i < |q| && Lookup(old(keys), q[i]).At? ==> q[i] !in keys
      ensures old(UniformKeys()) ==> UniformKeys()
    {
      ghost var q := Stringise(x);
      var found := FindMatchingRow(x);
      MatchRowsMeaning(keys, q);
      if found.Failure? {
        return Failure(found.error);
      }
      var idx := found.value.detected;
      if |idx| == 0 {
        return Failure(EmptyIndex);
      }
      var y := Gather(trueTargets, idx);
      UniqueMatchRemoved(keys, q);
      RemoveSampledIndex(idx);
      r := Success(y);
    }

    /**
     * `sample`: the first `n` entries of a random permutation of the pool
     * (supplied as `perm`) are taken with `SampleAt`.
     */
    method Sample(n: int, perm: seq<int>) returns (r: Result<(seq<seq<real>>, seq<real>), PoolError>)
      requires Valid() && IsPermutation(perm, nAvailable)
      modifies this
      ensures Valid()
      ensures var k := SliceEnd(old(nAvailable), n);
        r.Failure? <==> !Decodable(Gather(old(keys), perm[..k]))
      ensures old(UniformKeys()) ==> (r.Success? <==> SliceEnd(old(nAvailable), n) > 0)
      ensures r.Failure? ==> keys == old(keys) && trueTargets == old(trueTargets)
      ensures r.Failure? ==> nAvailable == old(nAvailable) && rows == old(rows) && consumed == old(consumed)
      ensures r.Success? ==>
        var k := SliceEnd(old(nAvailable), n);
        && |r.value.0| == k && |r.value.1| == k
        && DecodedAt(r.value.0, old(keys), perm[..k])
        && r.value.1 == Gather(old(trueTargets), perm[..k])
        && nAvailable == old(nAvailable) - k
      ensures r.Success? ==>
        var k := SliceEnd(old(nAvailable), n);
        && keys == MaskSelect(old(keys), Mask(old(nAvailable), perm[..k]))
        && trueTargets == MaskSelect(old(trueTargets), Mask(old(nAvailable), perm[..k]))
        && rows == MaskSelect(old(rows), Mask(old(nAvailable), perm[..k]))
        && consumed == old(consumed) + set j | 0 <= j < old(nAvailable) && j in perm[..k] :: old(rows)[j]
      ensures r.Success? ==>
        var taken := Gather(old(rows), perm[..SliceEnd(old(nAvailable), n)]);
        && Distinct(taken)
        && (forall t :: t in taken ==> t !in old(consumed) && t in consumed)
      ensures r.Success? && BinaryTable() ==>
        OriginalAt(r.value.0, originalFeatures, old(rows), perm[..SliceEnd(old(nAvailable), n)])
      ensures old(UniformKeys()) ==> UniformKeys()
    {
      var k := SliceEnd(nAvailable, n);
      var idx := perm[..k];
      assert Distinct(idx);
      r := SampleAt(idx);
    }

    /**
     * The rest of `sample` once the positions are drawn: the features and
     * labels at `idx`, read before removal; then those rows leave the pool,
     * which shrinks by exactly `|idx|`.
     */
    method SampleAt(idx: seq<int>) returns (r: Result<(seq<seq<real>>, seq<real>), PoolError>)
      requires Valid() && InRange(idx, nAvailable) && Distinct(idx)
      modifies this
      ensures Valid()
      ensures r.Failure? <==> !Decodable(Gather(old(keys), idx))
      ensures old(UniformKeys()) ==> (r.Success? <==> |idx| > 0)
      ensures r.Failure? ==> keys == old(keys) && trueTargets == old(trueTargets)
      ensures r.Failure? ==> nAvailable == old(nAvailable) && rows == old(rows) && consumed == old(consumed)
      ensures r.Success? ==>
        && |r.value.0| == |idx| && |r.value.1| == |idx|
        && DecodedAt(r.value.0, old(keys), idx)
        && r.value.1 == Gather(old(trueTargets), idx)
        && nAvailable == old(nAvailable) - |idx|
      ensures r.Success? ==>
        && keys == MaskSelect(old(keys), Mask(old(nAvailable), idx))
        && trueTargets == MaskSelect(old(trueTargets), Mask(old(nAvailable), idx))
        && rows == MaskSelect(old(rows), Mask(old(nAvailable), idx))
        && consumed == old(consumed) + set j | 0 <= j < old(nAvailable) && j in idx :: old(rows)[j]
      ensures r.Success? ==>
        && Distinct(Gather(old(rows), idx))
        && (forall t :: t in Gather(old(rows), idx) ==> t !in old(consumed) && t in consumed)
      ensures r.Success? && BinaryTable() ==> OriginalAt(r.value.0, originalFeatures, old(rows), idx)
      ensures old(UniformKeys()) ==> UniformKeys()
    {
      if UniformWidth(keys) {
        UniformDecodable(keys, idx);
      }
      var features := IndexToFeature(idx);
      if features.None? {
        return Failure(Undecodable);
      }
      var labels := Gather(trueTargets, idx);
      ghost var rows0, consumed0 := rows, consumed;
      if BinaryTable() {
        BinaryRowsDecode();
      }
      DistinctCard(idx);
      RemoveSampledIndex(idx);
      SampledRowsFresh(rows0, consumed0, |originalKeys|, idx, consumed);
      r := Success((features.value, labels));
    }

    /** `sample_feature`: the features of the first `n` entries of a random permutation; the pool is untouched. */
    method SampleFeature(n: int, perm: seq<int>) returns (r: Option<seq<seq<real>>>)
      requires Valid() && IsPermutation(perm, nAvailable)
      ensures var k := SliceEnd(nAvailable, n);
        && (r.Some? <==> Decodable(Gather(keys, perm[..k])))
        && (r.Some? ==> |r.value| == k)
        && (r.Some? ==> forall i :: 0 <= i < k ==> FeatureToString(r.value[i]) == keys[perm[i]])
        && (r.Some? ==> forall i :: 0 <= i < k ==> r.value[i] == KeyRow(keys[perm[i]]))
      ensures r.Some? && BinaryTable() ==>
        forall i :: 0 <= i < SliceEnd(nAvailable, n) ==> r.value[i] == originalFeatures[rows[perm[i]]]
    {
      var idx := perm[..SliceEnd(nAvailable, n)];
      r := IndexToFeature(idx);
      if BinaryTable() {
        BinaryRowsDecode();
      }
    }

    /** `available_candidates`: the features of every available row, in pool order; the pool is untouched. */
    method AvailableCandidates() returns (r: Option<seq<seq<real>>>)
      requires Valid()
      ensures r.Some? <==> Decodable(keys)
      ensures r.Some? ==> |r.value| == nAvailable
      ensures r.Some? ==> forall i :: 0 <= i < nAvailable ==> FeatureToString(r.value[i]) == keys[i]
      ensures r.Some? ==> forall i :: 0 <= i < nAvailable ==> r.value[i] == KeyRow(keys[i])
      ensures r.Some? && BinaryTable() ==> forall i :: 0 <= i < nAvailable ==> r.value[i] == originalFeatures[rows[i]]
    {
      assert Gather(keys, availableIndex) == keys;
      r := IndexToFeature(availableIndex);
      if BinaryTable() {
        BinaryRowsDecode();
      }
    }
  }
}
