/** The feature -> index map of gdmix/util/io_utils.py `get_feature_map`: the feature list
    (one "name,term" string per line of the feature file) zipped with `range(n)` into a
    dictionary. Reading the file is not part of this model; the list is the input. */
module FeatureMap {

  /** Every element occurs once. */
  predicate Distinct<T(==)>(xs: seq<T>)
  {
    forall i, j :: 0 <= i < j < |xs| ==> xs[i] != xs[j]
  }

  /** `dict(zip(features, range(len(features))))`: entries are inserted in list order, so
      a name listed twice keeps the position of its last occurrence. */
  function Build(features: seq<string>): map<string, nat>
  {
    if |features| == 0 then map[]
    else Build(features[..|features| - 1])[features[|features| - 1] := |features| - 1]
  }

  /** The map's keys are exactly the listed names, and each name is sent to the position
      of its LAST occurrence: that position holds the name and no later one does. */
  lemma {:induction false} BuildPositions(features: seq<string>)
    ensures Build(features).Keys == set f | f in features
    ensures forall f :: f in Build(features) ==> Build(features)[f] < |features| && features[Build(features)[f]] == f
    ensures forall f, j :: f in Build(features) && Build(features)[f] < j < |features| ==> features[j] != f
    decreases |features|
  {
    if |features| > 0 {
      var n := |features| - 1;
      var prefix := features[..n];
      BuildPositions(prefix);
      assert forall j :: 0 <= j < n ==> prefix[j] == features[j];
      assert features == prefix + [features[n]];
    }
  }

  /** A list of distinct names has as many elements as its set. */
  lemma {:induction false} DistinctCard(features: seq<string>)
    requires Distinct(features)
    ensures |set f | f in features| == |features|
    decreases |features|
  {
    if |features| > 0 {
      var n := |features| - 1;
      var prefix := features[..n];
      DistinctCard(prefix);
      assert features == prefix + [features[n]];
      assert (set f | f in features) == (set f | f in prefix) + {features[n]};
      assert features[n] !in prefix by {
        forall j | 0 <= j < n ensures prefix[j] != features[n] {
          assert prefix[j] == features[j];
        }
      }
    }
  }

  /** With distinct names the map is a bijection onto the positions: one entry per
      feature, each feature mapped to its own position. */
  lemma DistinctBuild(features: seq<string>)
    requires Distinct(features)
    ensures |Build(features)| == |features|
    ensures forall i :: 0 <= i < |features| ==> features[i] in Build(features) && Build(features)[features[i]] == i
  {
    DistinctCard(features);
    BuildPositions(features);
    var m := Build(features);
    assert |m| == |m.Keys|;
  }
}
