/** `calculate_radar_coords` of `src/radar.py`: each distinct data label is
    placed on a circle, at an angle given by its position among the sorted
    labels and at a distance given by its min-max normalised occurrence
    count; every row then receives its label's x, y or count, with x and y
    negated on "mirrored" rows. */
module Radar {
  import opened Basics
  import opened StringOrder

  /** A float as pandas produces it here: a number, or NaN from 0/0. */
  datatype Float = Num(r: real) | NaN

  /** `value * -1`; NaN stays NaN. */
  function Neg(f: Float): Float {
    match f
    case NaN => NaN
    case Num(r) => Num(-r)
  }

  /** The numeric primitives the computation draws on: cosine and sine of an
      angle given in turns (a fraction of the full circle), and `noise(i)`,
      the `i`-th draw of `np.random.normal(0, 0.1)` after `np.random.seed(0)`. */
  datatype Trig = Trig(cosTurns: real -> real, sinTurns: real -> real, noise: nat -> real)

  /** Lists of different lengths make `pd.DataFrame` raise `ValueError`; an
      unknown dimension raises `ValueError` too. */
  datatype RadarError = ShapeMismatch | InvalidDimension

  const Dimensions: set<string> := {"x", "y", "size"}

  /** The number of rows carrying the label `key`. */
  function Count(data: seq<string>, key: string): nat {
    if |data| == 0 then 0
    else Count(data[..|data| - 1], key) + (if data[|data| - 1] == key then 1 else 0)
  }

  /** The count is the label's multiplicity in the data. */
  lemma {:induction false} CountIsMultiplicity(data: seq<string>, key: string)
    ensures Count(data, key) == multiset(data)[key]
  {
    if |data| > 0 {
      var p := data[..|data| - 1];
      CountIsMultiplicity(p, key);
      assert data == p + [data[|data| - 1]];
    }
  }

  /** `.min()` of a non-empty column. */
  function SeqMin(s: seq<nat>): (m: nat)
    requires |s| > 0
    ensures forall i :: 0 <= i < |s| ==> m <= s[i]
    ensures exists i :: 0 <= i < |s| && s[i] == m
  {
    if |s| == 1 then s[0]
    else
      var m := SeqMin(s[1..]);
      assert forall i :: 1 <= i < |s| ==> s[i] == s[1..][i - 1];
      if s[0] <= m then s[0] else m
  }

  /** `.max()` of a non-empty column. */
  function SeqMax(s: seq<nat>): (m: nat)
    requires |s| > 0
    ensures forall i :: 0 <= i < |s| ==> s[i] <= m
    ensures exists i :: 0 <= i < |s| && s[i] == m
  {
    if |s| == 1 then s[0]
    else
      var m := SeqMax(s[1..]);
      assert forall i :: 1 <= i < |s| ==> s[i] == s[1..][i - 1];
      if s[0] >= m then s[0] else m
  }

  /** `p / q` as a float division. */
  function Fraction(p: nat, q: nat): real
    requires q > 0
  {
    p as real / q as real
  }

  /** A fraction of a whole lies in [0, 1]; it is 0 exactly for none of it
      and 1 exactly for all of it. */
  lemma FractionRange(p: nat, q: nat)
    requires p <= q && q > 0
    ensures 0.0 <= Fraction(p, q) <= 1.0
    ensures Fraction(p, q) == 0.0 <==> p == 0
    ensures Fraction(p, q) == 1.0 <==> p == q
  {
  }

  lemma FractionInjective(p: nat, p': nat, q: nat)
    requires q > 0 && p != p'
    ensures Fraction(p, q) != Fraction(p', q)
  {
  }

  /** `(count - min) / (max - min)`, NaN when every count is the same. */
  function Normalize(c: nat, lo: nat, hi: nat): (f: Float)
    requires lo <= c <= hi
    ensures f == NaN <==> lo == hi
  {
    if hi == lo then NaN else Num(Fraction(c - lo, hi - lo))
  }

  /** The grouped frame: the sorted distinct labels and their counts. */
  function Counts(keys: seq<string>, data: seq<string>): seq<nat>
  {
    seq(|keys|, k requires 0 <= k < |keys| => Count(data, keys[k]))
  }

  /** The angle, in turns, of the label at position `k` among `n` labels:
      `k * 2 * pi / n` radians. */
  function Turns(k: nat, n: nat): (t: real)
    requires k < n
    ensures 0.0 <= t < 1.0
  {
    Fraction(k, n)
  }

  /** A label's x or y before mirroring: `amp * cos(angle) + noise` or
      `amp * sin(angle) + noise`; NaN propagates. */
  function Coordinate(amp: Float, turns: real, noise: real, dim: string, trig: Trig): Float {
    match amp
    case NaN => NaN
    case Num(a) =>
      Num(a * (if dim == "x" then trig.cosTurns(turns) else trig.sinTurns(turns)) + noise)
  }

  /** The value of row `i` for dimension `dim` (already lower-cased and
      valid), given the sorted labels and their counts. */
  function RowValue(data: seq<string>, nodeTypes: seq<string>, i: nat, dim: string,
                    keys: seq<string>, counts: seq<nat>, trig: Trig): Float
    requires i < |data| && i < |nodeTypes|
    requires forall y :: y in keys <==> y in data
    requires |counts| == |keys|
    requires forall k :: 0 <= k < |keys| ==> counts[k] == Count(data, keys[k])
  {
    var k := Index(keys, data[i]);
    if dim == "size" then Num(counts[k] as real)
    else
      var lo := SeqMin(counts);
      var hi := SeqMax(counts);
      var v := Coordinate(Normalize(counts[k], lo, hi), Turns(k, |keys|), trig.noise(k), dim, trig);
      if nodeTypes[i] == "mirrored" then Neg(v) else v
  }

  /** `calculate_radar_coords(data, calc_amplitude_data, threads,
      node_types, dimension)`: one value per row, or the error raised. */
  function CalculateRadarCoords(data: seq<string>, amplitude: seq<string>, threads: seq<string>,
                                nodeTypes: seq<string>, dimension: string, trig: Trig)
    : (r: Result<seq<Float>, RadarError>)
    ensures r == Failure(ShapeMismatch) <==>
      !(|data| == |amplitude| == |threads| == |nodeTypes|)
    ensures r == Failure(InvalidDimension) <==>
      |data| == |amplitude| == |threads| == |nodeTypes| && Lower(dimension) !in Dimensions
    ensures r.Success? ==> |r.value| == |data|
  {
    var dim := Lower(dimension);
    if !(|data| == |amplitude| == |threads| == |nodeTypes|) then Failure(ShapeMismatch)
    else if dim !in Dimensions then Failure(InvalidDimension)
    else
      var keys := SortedKeys(data);
      SortedKeysSpec(data);
      var counts := Counts(keys, data);
      Success(seq(|data|, i requires 0 <= i < |data| => RowValue(data, nodeTypes, i, dim, keys, counts, trig)))
  }

  /** `lo` is the smallest count of any label present. */
  ghost predicate IsLeastCount(data: seq<string>, lo: nat) {
    && (exists j :: 0 <= j < |data| && Count(data, data[j]) == lo)
    && (forall j :: 0 <= j < |data| ==> lo <= Count(data, data[j]))
  }

  /** `hi` is the largest count of any label present. */
  ghost predicate IsGreatestCount(data: seq<string>, hi: nat) {
    && (exists j :: 0 <= j < |data| && Count(data, data[j]) == hi)
    && (forall j :: 0 <= j < |data| ==> Count(data, data[j]) <= hi)
  }

  /** The column minimum and maximum over the grouped labels are the least
      and greatest counts over the rows. */
  lemma CountsRange(data: seq<string>)
    requires |data| > 0
    ensures |Counts(SortedKeys(data), data)| > 0
    ensures IsLeastCount(data, SeqMin(Counts(SortedKeys(data), data)))
    ensures IsGreatestCount(data, SeqMax(Counts(SortedKeys(data), data)))
  {
    var keys := SortedKeys(data);
    SortedKeysSpec(data);
    var counts := Counts(keys, data);
    assert data[0] in keys;
    var lo := SeqMin(counts);
    var hi := SeqMax(counts);
    forall j | 0 <= j < |data| ensures lo <= Count(data, data[j]) <= hi {
      var k := Index(keys, data[j]);
      assert counts[k] == Count(data, data[j]);
    }
    var a :| 0 <= a < |counts| && counts[a] == lo;
    assert keys[a] in data;
    var j :| 0 <= j < |data| && data[j] == keys[a];
    assert Count(data, data[j]) == lo;
    var b :| 0 <= b < |counts| && counts[b] == hi;
    assert keys[b] in data;
    var j' :| 0 <= j' < |data| && data[j'] == keys[b];
    assert Count(data, data[j']) == hi;
  }

  /** The least and greatest counts are the column's minimum and maximum. */
  lemma ColumnBounds(data: seq<string>, lo: nat, hi: nat)
    requires IsLeastCount(data, lo) && IsGreatestCount(data, hi)
    ensures |Counts(SortedKeys(data), data)| > 0
    ensures SeqMin(Counts(SortedKeys(data), data)) == lo
    ensures SeqMax(Counts(SortedKeys(data), data)) == hi
  {
    var counts := Counts(SortedKeys(data), data);
    CountsRange(data);
    var j :| 0 <= j < |data| && Count(data, data[j]) == SeqMin(counts);
    var j' :| 0 <= j' < |data| && Count(data, data[j']) == lo;
    var m :| 0 <= m < |data| && Count(data, data[m]) == SeqMax(counts);
    var m' :| 0 <= m' < |data| && Count(data, data[m']) == hi;
  }

  /** A label's position among the grouped keys is its rank among the
      distinct labels, and there are as many keys as distinct labels. */
  lemma KeyPosition(data: seq<string>, l: string)
    requires l in data
    ensures l in SortedKeys(data)
    ensures |SortedKeys(data)| == |Elements(data)|
    ensures Index(SortedKeys(data), l) == Rank(Elements(data), l)
  {
    var keys := SortedKeys(data);
    SortedKeysSpec(data);
    assert Elements(keys) == Elements(data);
    SortedIndexIsRank(keys, Index(keys, l));
    forall a, b | 0 <= a < b < |keys| ensures keys[a] != keys[b] {
      LessIrreflexive(keys[a]);
    }
    DistinctCard(keys);
  }

  /** Inside the successful branch, entry `i` is the per-row value. */
  lemma RadarRow(data: seq<string>, amplitude: seq<string>, threads: seq<string>,
                 nodeTypes: seq<string>, dimension: string, trig: Trig, i: nat)
    requires |data| == |amplitude| == |threads| == |nodeTypes|
    requires Lower(dimension) in Dimensions
    requires i < |data|
    ensures forall y :: y in SortedKeys(data) <==> y in data
    ensures CalculateRadarCoords(data, amplitude, threads, nodeTypes, dimension, trig).Success?
    ensures CalculateRadarCoords(data, amplitude, threads, nodeTypes, dimension, trig).value[i]
         == RowValue(data, nodeTypes, i, Lower(dimension), SortedKeys(data), Counts(SortedKeys(data), data), trig)
  {
    SortedKeysSpec(data);
  }

  /** Dimension "size" gives every row the number of rows sharing its
      label, unnormalised and never negated. */
  lemma SizeIsCount(data: seq<string>, amplitude: seq<string>, threads: seq<string>,
                    nodeTypes: seq<string>, dimension: string, trig: Trig, i: nat)
    requires |data| == |amplitude| == |threads| == |nodeTypes|
    requires Lower(dimension) == "size"
    requires i < |data|
    ensures CalculateRadarCoords(data, amplitude, threads, nodeTypes, dimension, trig)
         .value[i] == Num(multiset(data)[data[i]] as real)
  {
    RadarRow(data, amplitude, threads, nodeTypes, dimension, trig, i);
    CountIsMultiplicity(data, data[i]);
  }

  /** For dimension x or y, a row's value is its label's count normalised
      between the least and greatest counts (see `AmplitudeRange`), times
      the cosine (x) or sine (y) of the label's angle, plus the label's
      noise, negated on a "mirrored" row; the angle and the noise index
      come from the label's rank among the distinct labels. */
  lemma CoordinateValue(data: seq<string>, amplitude: seq<string>, threads: seq<string>,
                        nodeTypes: seq<string>, dimension: string, trig: Trig, i: nat, lo: nat, hi: nat)
    requires |data| == |amplitude| == |threads| == |nodeTypes|
    requires Lower(dimension) == "x" || Lower(dimension) == "y"
    requires i < |data|
    requires IsLeastCount(data, lo) && IsGreatestCount(data, hi)
    ensures lo <= Count(data, data[i]) <= hi
    ensures var l := data[i];
      var rank := Rank(Elements(data), l);
      var v := Coordinate(Normalize(Count(data, l), lo, hi), AngleTurns(data, l), trig.noise(rank),
                          Lower(dimension), trig);
      CalculateRadarCoords(data, amplitude, threads, nodeTypes, dimension, trig).value[i]
      == (if nodeTypes[i] == "mirrored" then Neg(v) else v)
  {
    var l := data[i];
    var keys := SortedKeys(data);
    var counts := Counts(keys, data);
    var dim := Lower(dimension);
    var rank := Rank(Elements(data), l);
    ColumnBounds(data, lo, hi);
    SortedKeysSpec(data);
    var k := Index(keys, l);
    assert k == rank && Turns(k, |keys|) == AngleTurns(data, l) by {
      KeyPosition(data, l);
    }
    assert counts[k] == Count(data, l);
    RadarRowCoordinate(data, amplitude, threads, nodeTypes, dimension, trig, i);
  }

  /** Entry `i` for dimension x or y, in terms of the grouped frame. */
  lemma RadarRowCoordinate(data: seq<string>, amplitude: seq<string>, threads: seq<string>,
                           nodeTypes: seq<string>, dimension: string, trig: Trig, i: nat)
    requires |data| == |amplitude| == |threads| == |nodeTypes|
    requires Lower(dimension) == "x" || Lower(dimension) == "y"
    requires i < |data|
    requires |Counts(SortedKeys(data), data)| > 0
    ensures data[i] in SortedKeys(data)
    ensures var keys := SortedKeys(data);
      var counts := Counts(keys, data);
      var k := Index(keys, data[i]);
      var v := Coordinate(Normalize(counts[k], SeqMin(counts), SeqMax(counts)), Turns(k, |keys|),
                          trig.noise(k), Lower(dimension), trig);
      CalculateRadarCoords(data, amplitude, threads, nodeTypes, dimension, trig).value[i]
      == (if nodeTypes[i] == "mirrored" then Neg(v) else v)
  {
    SortedKeysSpec(data);
    RadarRow(data, amplitude, threads, nodeTypes, dimension, trig, i);
    RowCoordinate(data, nodeTypes, i, Lower(dimension), SortedKeys(data), Counts(SortedKeys(data), data), trig);
  }

  /** The per-row value for x or y, with the normalisation spelled out. */
  lemma RowCoordinate(data: seq<string>, nodeTypes: seq<string>, i: nat, dim: string,
                      keys: seq<string>, counts: seq<nat>, trig: Trig)
    requires i < |data| && i < |nodeTypes|
    requires forall y :: y in keys <==> y in data
    requires |counts| == |keys|
    requires forall k :: 0 <= k < |keys| ==> counts[k] == Count(data, keys[k])
    requires dim == "x" || dim == "y"
    requires |counts| > 0
    ensures var k := Index(keys, data[i]);
      var lo := SeqMin(counts);
      var hi := SeqMax(counts);
      var v := Coordinate(Normalize(counts[k], lo, hi), Turns(k, |keys|), trig.noise(k), dim, trig);
      RowValue(data, nodeTypes, i, dim, keys, counts, trig) == (if nodeTypes[i] == "mirrored" then Neg(v) else v)
  {
  }

  /** Unless every label occurs equally often, the normalised count of a
      label lies in [0, 1], is 0 exactly for the least frequent labels and
      1 exactly for the most frequent; otherwise it is NaN. */
  lemma AmplitudeRange(data: seq<string>, l: string, lo: nat, hi: nat)
    requires l in data
    requires IsLeastCount(data, lo) && IsGreatestCount(data, hi)
    ensures lo <= Count(data, l) <= hi
    ensures Normalize(Count(data, l), lo, hi) == NaN <==> lo == hi
    ensures lo < hi ==>
      var a := Normalize(Count(data, l), lo, hi).r;
      && 0.0 <= a <= 1.0
      && (a == 0.0 <==> Count(data, l) == lo)
      && (a == 1.0 <==> Count(data, l) == hi)
  {
    var j :| 0 <= j < |data| && data[j] == l;
    assert lo <= Count(data, data[j]) <= hi;
    if lo < hi {
      FractionRange(Count(data, l) - lo, hi - lo);
    }
  }

  /** When every label occurs equally often, 0/0 makes every x and y NaN. */
  lemma EqualCountsGiveNaN(data: seq<string>, amplitude: seq<string>, threads: seq<string>,
                           nodeTypes: seq<string>, dimension: string, trig: Trig, i: nat)
    requires |data| == |amplitude| == |threads| == |nodeTypes|
    requires Lower(dimension) == "x" || Lower(dimension) == "y"
    requires i < |data|
    requires forall j :: 0 <= j < |data| ==> Count(data, data[j]) == Count(data, data[0])
    ensures CalculateRadarCoords(data, amplitude, threads, nodeTypes, dimension, trig).value[i] == NaN
  {
    RadarRow(data, amplitude, threads, nodeTypes, dimension, trig, i);
    CountsRange(data);
    var counts := Counts(SortedKeys(data), data);
    var j :| 0 <= j < |data| && Count(data, data[j]) == SeqMin(counts);
    var j' :| 0 <= j' < |data| && Count(data, data[j']) == SeqMax(counts);
  }

  /** A "mirrored" row holds the negation of a row of the same label that
      is not mirrored. */
  lemma MirroredNegates(data: seq<string>, amplitude: seq<string>, threads: seq<string>,
                        nodeTypes: seq<string>, dimension: string, trig: Trig, i: nat, j: nat)
    requires |data| == |amplitude| == |threads| == |nodeTypes|
    requires Lower(dimension) == "x" || Lower(dimension) == "y"
    requires i < |data| && j < |data| && data[i] == data[j]
    requires nodeTypes[i] == "mirrored" && nodeTypes[j] != "mirrored"
    ensures var r := CalculateRadarCoords(data, amplitude, threads, nodeTypes, dimension, trig);
      r.value[i] == Neg(r.value[j])
  {
    RadarRow(data, amplitude, threads, nodeTypes, dimension, trig, i);
    RadarRow(data, amplitude, threads, nodeTypes, dimension, trig, j);
  }

  /** Rows with the same label and the same mirroring get the same value. */
  lemma SameLabelSameValue(data: seq<string>, amplitude: seq<string>, threads: seq<string>,
                           nodeTypes: seq<string>, dimension: string, trig: Trig, i: nat, j: nat)
    requires |data| == |amplitude| == |threads| == |nodeTypes|
    requires Lower(dimension) in Dimensions
    requires i < |data| && j < |data| && data[i] == data[j]
    requires (nodeTypes[i] == "mirrored") == (nodeTypes[j] == "mirrored")
    ensures var r := CalculateRadarCoords(data, amplitude, threads, nodeTypes, dimension, trig);
      r.value[i] == r.value[j]
  {
    RadarRow(data, amplitude, threads, nodeTypes, dimension, trig, i);
    RadarRow(data, amplitude, threads, nodeTypes, dimension, trig, j);
  }

  /** The amplitude and thread columns only have to be as long as the
      others: their contents never reach the result. */
  lemma IgnoresAmplitudeAndThreads(data: seq<string>, amplitude: seq<string>, threads: seq<string>,
                                   amplitude': seq<string>, threads': seq<string>,
                                   nodeTypes: seq<string>, dimension: string, trig: Trig)
    requires |amplitude| == |amplitude'| && |threads| == |threads'|
    ensures CalculateRadarCoords(data, amplitude, threads, nodeTypes, dimension, trig)
         == CalculateRadarCoords(data, amplitude', threads', nodeTypes, dimension, trig)
  {
  }

  /** The angle of a label, in turns: its rank among the distinct labels
      over the number of distinct labels. */
  function AngleTurns(data: seq<string>, l: string): real
    requires l in data
  {
    assert l in Elements(data);
    Fraction(Rank(Elements(data), l), |Elements(data)|)
  }

  /** Different labels sit at different angles, each within one turn. */
  lemma AnglesDistinct(data: seq<string>, l: string, l': string)
    requires l in data && l' in data && l != l'
    ensures 0.0 <= AngleTurns(data, l) < 1.0
    ensures AngleTurns(data, l) != AngleTurns(data, l')
  {
    KeyPosition(data, l);
    KeyPosition(data, l');
    var n := |Elements(data)|;
    assert Turns(Rank(Elements(data), l), n) == AngleTurns(data, l);
    FractionInjective(Rank(Elements(data), l), Rank(Elements(data), l'), n);
  }

  /** Labels a, a, b with dimension "size" give 2, 2, 1. */
  lemma SizeExample(trig: Trig)
    ensures CalculateRadarCoords(["a", "a", "b"], ["1", "1", "1"], ["t", "t", "t"],
                                 ["original", "original", "original"], "size", trig)
         == Success([Num(2.0), Num(2.0), Num(1.0)])
  {
    var data := ["a", "a", "b"];
    var amplitude, threads := ["1", "1", "1"], ["t", "t", "t"];
    var nodeTypes := ["original", "original", "original"];
    assert Lower("size") == "size";
    var r := CalculateRadarCoords(data, amplitude, threads, nodeTypes, "size", trig);
    SizeIsCount(data, amplitude, threads, nodeTypes, "size", trig, 0);
    SizeIsCount(data, amplitude, threads, nodeTypes, "size", trig, 1);
    SizeIsCount(data, amplitude, threads, nodeTypes, "size", trig, 2);
    assert multiset(data)["a"] == 2 && multiset(data)["b"] == 1;
    assert r.value == [Num(2.0), Num(2.0), Num(1.0)];
  }
}
