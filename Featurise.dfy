/**
 * String keys for binary feature rows (class `Featurise` in SOBER/_prior.py).
 * A row is encoded by writing `str(int(x))` for each coordinate and joining
 * the pieces; a key is decoded by reading `int(c)` for each character. The
 * data frame's index over these keys is a sequence of strings, and pandas'
 * `Index.get_loc` is modelled by `Lookup`.
 */
module Featurise {
  import opened Wrappers
  import opened Indexing

  /** Python's `int(x)` on a float: truncation toward zero. */
  function Trunc(x: real): (n: int)
    ensures 0.0 <= x ==> 0 <= n && n as real <= x < n as real + 1.0
    ensures x < 0.0 ==> n <= 0 && n as real - 1.0 < x <= n as real
  {
    if x >= 0.0 then x.Floor else -((-x).Floor)
  }

  predicate IsDigit(c: char)
  {
    '0' <= c <= '9'
  }

  function DigitChar(d: nat): (c: char)
    requires d < 10
    ensures IsDigit(c) && c as int - '0' as int == d
  {
    ('0' as int + d) as char
  }

  /** Python's `str(n)` for a non-negative integer: decimal digits, no leading zero. */
  function NatToString(n: nat): (s: string)
    ensures |s| >= 1
    ensures |s| == 1 <==> n < 10
    decreases n
  {
    if n < 10 then [DigitChar(n)] else NatToString(n / 10) + [DigitChar(n % 10)]
  }

  /** Python's `str(n)` for any integer. */
  function IntToString(n: int): (s: string)
    ensures |s| >= 1
    ensures |s| == 1 <==> 0 <= n < 10
    ensures 0 <= n < 10 ==> s == [DigitChar(n)]
  {
    if n < 0 then "-" + NatToString(-n) else NatToString(n)
  }

  /** `feature2string`: the pieces `str(int(x))` of every coordinate, joined. */
  function FeatureToString(feature: seq<real>): (s: string)
    ensures |s| >= |feature|
  {
    if feature == [] then "" else IntToString(Trunc(feature[0])) + FeatureToString(feature[1..])
  }

  /** Every coordinate truncates to a single decimal digit (binary rows qualify). */
  predicate IsDigitFeature(feature: seq<real>)
  {
    forall j :: 0 <= j < |feature| ==> 0 <= Trunc(feature[j]) < 10
  }

  predicate IsBinary(feature: seq<real>)
  {
    forall j :: 0 <= j < |feature| ==> feature[j] == 0.0 || feature[j] == 1.0
  }

  predicate IsDigitString(s: string)
  {
    forall i :: 0 <= i < |s| ==> IsDigit(s[i])
  }

  /** The values `int(c)` of the characters of a digit string. */
  function DigitValues(s: string): (v: seq<int>)
    requires IsDigitString(s)
    ensures |v| == |s|
    ensures forall i :: 0 <= i < |s| ==> 0 <= v[i] < 10 && DigitChar(v[i]) == s[i]
  {
    seq(|s|, i requires 0 <= i < |s| => s[i] as int - '0' as int)
  }

  /** `string2feature`: `int(c)` per character; a non-digit character raises. */
  function StringToFeature(s: string): (r: Option<seq<int>>)
    ensures r.Some? <==> IsDigitString(s)
    ensures r.Some? ==> |r.value| == |s| && FeatureToString(Realise(r.value)) == s
  {
    if IsDigitString(s) then
      DecodeEncode(s);
      Some(DigitValues(s))
    else None
  }

  /** `.float()` of an integer tensor. */
  function Realise(v: seq<int>): (f: seq<real>)
    ensures |f| == |v|
    ensures forall j :: 0 <= j < |v| ==> f[j] == v[j] as real
  {
    seq(|v|, j requires 0 <= j < |v| => v[j] as real)
  }

  /** The coordinates of a row after `int(x)`. */
  function Truncated(feature: seq<real>): (v: seq<int>)
    ensures |v| == |feature|
    ensures forall j :: 0 <= j < |feature| ==> v[j] == Trunc(feature[j])
  {
    seq(|feature|, j requires 0 <= j < |feature| => Trunc(feature[j]))
  }

  /** A key has one character per coordinate exactly when every coordinate is a single digit. */
  lemma {:induction false} KeyWidth(feature: seq<real>)
    ensures |FeatureToString(feature)| == |feature| <==> IsDigitFeature(feature)
  {
    if feature != [] {
      KeyWidth(feature[1..]);
      if IsDigitFeature(feature) {
        assert IsDigitFeature(feature[1..]) by {
          forall j | 0 <= j < |feature| - 1 ensures 0 <= Trunc(feature[1..][j]) < 10 {
            assert feature[1..][j] == feature[j + 1];
          }
        }
      } else if IsDigitFeature(feature[1..]) {
        var j :| 0 <= j < |feature| && !(0 <= Trunc(feature[j]) < 10);
        if j > 0 {
          assert feature[1..][j - 1] == feature[j];
        }
      }
    }
  }

  /** A digit in front of a digit string: its value goes in front of the values. */
  lemma DigitValuesCons(d: nat, tail: string)
    requires d < 10 && IsDigitString(tail)
    ensures IsDigitString([DigitChar(d)] + tail)
    ensures DigitValues([DigitChar(d)] + tail) == [d] + DigitValues(tail)
  {
    var s := [DigitChar(d)] + tail;
    assert IsDigitString(s) by {
      forall i | 0 <= i < |s| ensures IsDigit(s[i]) {
        if i > 0 {
          assert s[i] == tail[i - 1];
        }
      }
    }
    var v := DigitValues(s);
    forall i | 0 <= i < |v| ensures v[i] == ([d] + DigitValues(tail))[i] {
      if i > 0 {
        assert s[i] == tail[i - 1];
      }
    }
  }

  lemma DigitFeatureTail(feature: seq<real>)
    requires feature != [] && IsDigitFeature(feature)
    ensures 0 <= Trunc(feature[0]) < 10 && IsDigitFeature(feature[1..])
  {
    forall j | 0 <= j < |feature| - 1 ensures 0 <= Trunc(feature[1..][j]) < 10 {
      assert feature[1..][j] == feature[j + 1];
    }
  }

  /** Decoding the key of a row of single digits gives back its truncated coordinates. */
  lemma {:induction false} EncodeDecode(feature: seq<real>)
    requires IsDigitFeature(feature)
    ensures StringToFeature(FeatureToString(feature)) == Some(Truncated(feature))
  {
    if feature != [] {
      DigitFeatureTail(feature);
      EncodeDecode(feature[1..]);
      var d := Trunc(feature[0]);
      var tail := FeatureToString(feature[1..]);
      assert FeatureToString(feature) == [DigitChar(d)] + tail;
      DigitValuesCons(d, tail);
      assert Truncated(feature) == [d] + Truncated(feature[1..]);
    }
  }

  /** The round trip `string2feature(feature2string(v)) == v` for a 0/1 row. */
  lemma BinaryRoundTrip(feature: seq<real>)
    requires IsBinary(feature)
    ensures StringToFeature(FeatureToString(feature)).Some?
    ensures Realise(StringToFeature(FeatureToString(feature)).value) == feature
  {
    assert IsDigitFeature(feature);
    EncodeDecode(feature);
  }

  /** The other direction: a digit key is the key of the row it decodes to. */
  lemma {:induction false} DecodeEncode(s: string)
    requires IsDigitString(s)
    ensures FeatureToString(Realise(DigitValues(s))) == s
  {
    if s != [] {
      var f := Realise(DigitValues(s));
      assert IsDigitString(s[1..]) by {
        forall i | 0 <= i < |s| - 1 ensures IsDigit(s[1..][i]) {
          assert s[1..][i] == s[i + 1];
        }
      }
      DecodeEncode(s[1..]);
      assert f[1..] == Realise(DigitValues(s[1..]));
      var d := DigitValues(s)[0];
      assert Trunc(f[0]) == d;
      assert IntToString(d) == [s[0]];
      assert s == [s[0]] + s[1..];
    }
  }

  /** Coordinates that are not single digits make keys ambiguous: two different rows, one key. */
  lemma KeyCollision()
    ensures FeatureToString([10.0]) == FeatureToString([1.0, 0.0])
  {
    assert Trunc(10.0) == 10 && Trunc(1.0) == 1 && Trunc(0.0) == 0;
    assert NatToString(10) == NatToString(1) + [DigitChar(0)];
    assert [1.0, 0.0][1..] == [0.0];
  }

  /** `stringise`: one key per row. */
  function Stringise(features: seq<seq<real>>): (keys: seq<string>)
    ensures |keys| == |features|
    ensures forall i :: 0 <= i < |features| ==> keys[i] == FeatureToString(features[i])
  {
    seq(|features|, i requires 0 <= i < |features| => FeatureToString(features[i]))
  }

  /**
   * The keys `featurise` can stack: `torch.vstack` refuses an empty list and
   * rows of different lengths, and `int(c)` refuses a non-digit character.
   */
  predicate Decodable(keys: seq<string>)
  {
    && keys != []
    && (forall i :: 0 <= i < |keys| ==> IsDigitString(keys[i]))
    && (forall i :: 0 <= i < |keys| ==> |keys[i]| == |keys[0]|)
  }

  /** Every key is a digit string and all keys have one width: what a table of 0/1 rows gives. */
  predicate UniformWidth(keys: seq<string>)
  {
    forall i, j :: 0 <= i < |keys| && 0 <= j < |keys| ==> IsDigitString(keys[i]) && |keys[i]| == |keys[j]|
  }

  /** Any non-empty selection from uniformly wide digit keys can be stacked. */
  lemma UniformDecodable(keys: seq<string>, idx: seq<int>)
    requires UniformWidth(keys) && InRange(idx, |keys|)
    ensures Decodable(Gather(keys, idx)) <==> idx != []
  {
  }

  /** Selecting keys keeps them uniformly wide. */
  lemma UniformSelect(keys: seq<string>, m: seq<bool>)
    requires UniformWidth(keys) && |m| == |keys|
    ensures UniformWidth(MaskSelect(keys, m))
  {
    MaskSelectMembers(keys, m);
    var sel := MaskSelect(keys, m);
    forall i, j | 0 <= i < |sel| && 0 <= j < |sel|
      ensures IsDigitString(sel[i]) && |sel[i]| == |sel[j]|
    {
      assert sel[i] in sel && sel[j] in sel;
    }
  }

  /** `featurise`: decode every key and stack the rows. */
  function FeaturiseKeys(keys: seq<string>): (r: Option<seq<seq<int>>>)
    ensures r.Some? <==> Decodable(keys)
    ensures r.Some? ==> |r.value| == |keys|
    ensures r.Some? ==> forall i :: 0 <= i < |keys| ==> |r.value[i]| == |keys[0]|
    ensures r.Some? ==> forall i :: 0 <= i < |keys| ==> FeatureToString(Realise(r.value[i])) == keys[i]
  {
    if Decodable(keys) then
      var rows := seq(|keys|, i requires 0 <= i < |keys| => DigitValues(keys[i]));
      assert forall i :: 0 <= i < |keys| ==> FeatureToString(Realise(rows[i])) == keys[i] by {
        forall i | 0 <= i < |keys| ensures FeatureToString(Realise(rows[i])) == keys[i] {
          DecodeEncode(keys[i]);
        }
      }
      Some(rows)
    else None
  }

  /**
   * The row a key decodes to, as `string2feature(key).float()`; the empty
   * row for a key that is not a digit string, where `int(c)` would raise.
   */
  function KeyRow(key: string): (f: seq<real>)
    ensures IsDigitString(key) ==> |f| == |key| && FeatureToString(f) == key
  {
    if IsDigitString(key) then
      DecodeEncode(key);
      Realise(DigitValues(key))
    else []
  }

  /** The key of a 0/1 row decodes back to that row. */
  lemma BinaryKeyRow(feature: seq<real>)
    requires IsBinary(feature)
    ensures IsDigitString(FeatureToString(feature))
    ensures KeyRow(FeatureToString(feature)) == feature
  {
    BinaryRoundTrip(feature);
  }

  /** Stacked decoding of the keys of a non-empty batch of 0/1 rows of one width gives the batch back. */
  lemma BatchRoundTrip(features: seq<seq<real>>, width: nat)
    requires features != []
    requires forall i :: 0 <= i < |features| ==> |features[i]| == width && IsBinary(features[i])
    ensures FeaturiseKeys(Stringise(features)).Some?
    ensures var rows := FeaturiseKeys(Stringise(features)).value;
      |rows| == |features| && forall i :: 0 <= i < |rows| ==> Realise(rows[i]) == features[i]
  {
    var keys := Stringise(features);
    forall i | 0 <= i < |keys|
      ensures IsDigitString(keys[i]) && |keys[i]| == width
      ensures Realise(DigitValues(keys[i])) == features[i]
    {
      BinaryRoundTrip(features[i]);
      KeyWidth(features[i]);
    }
  }

  /** Where a key occurs in the index, in increasing order. */
  function Positions(keys: seq<string>, key: string): (ps: seq<int>)
    ensures Increasing(ps)
    ensures forall i :: 0 <= i < |ps| ==> 0 <= ps[i] < |keys|
    ensures forall p :: p in ps <==> 0 <= p < |keys| && keys[p] == key
  {
    if keys == [] then []
    else
      var before := Positions(keys[..|keys| - 1], key);
      before + (if keys[|keys| - 1] == key then [|keys| - 1] else [])
  }

  /** The three outcomes of `Index.get_loc`: a missing key, a single position, or a key on several rows. */
  datatype Location = Absent | At(pos: nat) | Shared

  /** `Index.get_loc(key)` on the frame's key index. */
  function Lookup(keys: seq<string>, key: string): (loc: Location)
    ensures loc.Absent? <==> key !in keys
    ensures loc.At? ==> loc.pos < |keys| && keys[loc.pos] == key
  {
    var ps := Positions(keys, key);
    if |ps| == 0 then
      assert forall p | 0 <= p < |keys| :: p !in ps;
      Absent
    else
      assert ps[0] in ps;
      if |ps| == 1 then At(ps[0]) else Shared
  }

  /**
   * `get_loc` finds nothing exactly when no row has the key, a single
   * position exactly when one row has it, and several rows otherwise.
   */
  lemma LookupMeaning(keys: seq<string>, key: string)
    ensures var loc := Lookup(keys, key);
      && (loc.Absent? <==> key !in keys)
      && (loc.At? ==> loc.pos < |keys| && keys[loc.pos] == key)
      && (loc.At? ==> forall q :: 0 <= q < |keys| && keys[q] == key ==> q == loc.pos)
      && (loc.Shared? <==> exists p, q :: 0 <= p < q < |keys| && keys[p] == key && keys[q] == key)
  {
    var ps := Positions(keys, key);
    if |ps| == 1 {
      assert ps[0] in ps;
    } else if |ps| > 1 {
      assert ps[0] in ps && ps[1] in ps;
    }
  }

  /** `get_loc` of every query key. */
  function Locations(keys: seq<string>, queries: seq<string>): (locs: seq<Location>)
    ensures |locs| == |queries|
    ensures forall i :: 0 <= i < |queries| ==> locs[i] == Lookup(keys, queries[i])
  {
    seq(|queries|, i requires 0 <= i < |queries| => Lookup(keys, queries[i]))
  }

  /** The index `find_matching_row` records for one lookup: the position, or 0 for a shared key. */
  function MatchIndex(loc: Location): nat
  {
    if loc.At? then loc.pos else 0
  }

  /** The indices `find_matching_row` returns once every key was found. */
  function Matches(keys: seq<string>, queries: seq<string>): (idx: seq<int>)
    ensures |idx| == |queries|
  {
    seq(|queries|, i requires 0 <= i < |queries| => MatchIndex(Lookup(keys, queries[i])))
  }

  /** Each returned index names the row holding the key, and a shared key falls back to row 0. */
  lemma MatchesSound(keys: seq<string>, queries: seq<string>)
    requires forall i :: 0 <= i < |queries| ==> queries[i] in keys
    ensures InRange(Matches(keys, queries), |keys|)
    ensures forall i :: 0 <= i < |queries| && Lookup(keys, queries[i]).At? ==>
      keys[Matches(keys, queries)[i]] == queries[i]
    ensures forall i :: 0 <= i < |queries| && Lookup(keys, queries[i]).Shared? ==>
      Matches(keys, queries)[i] == 0
  {
    forall i | 0 <= i < |queries| {
      LookupMeaning(keys, queries[i]);
    }
  }

  /** The rows whose lookup was not a single position: the rows reported as misspecified. */
  function SharedRows(locs: seq<Location>): seq<int>
  {
    if locs == [] then []
    else SharedRows(locs[..|locs| - 1]) + (if locs[|locs| - 1].Shared? then [|locs| - 1] else [])
  }

  /** The reported rows are, in increasing order, exactly the query rows whose key is shared. */
  lemma {:induction false} SharedRowsMeaning(locs: seq<Location>)
    ensures Increasing(SharedRows(locs))
    ensures forall k :: 0 <= k < |SharedRows(locs)| ==> 0 <= SharedRows(locs)[k] < |locs|
    ensures forall i :: i in SharedRows(locs) <==> 0 <= i < |locs| && locs[i].Shared?
  {
    if locs != [] {
      var n := |locs|;
      SharedRowsMeaning(locs[..n - 1]);
      assert forall i :: 0 <= i < n - 1 ==> locs[..n - 1][i] == locs[i];
    }
  }

  /** The first row whose key is missing from the index, if any. */
  function FirstAbsent(locs: seq<Location>): (r: Option<nat>)
    ensures r.None? <==> forall i :: 0 <= i < |locs| ==> !locs[i].Absent?
    ensures r.Some? ==> r.value < |locs| && locs[r.value].Absent?
    ensures r.Some? ==> forall i :: 0 <= i < r.value ==> !locs[i].Absent?
  {
    if locs == [] then None
    else if locs[0].Absent? then Some(0)
    else match FirstAbsent(locs[1..])
      case None => None
      case Some(k) => Some(k + 1)
  }
}
