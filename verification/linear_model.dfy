/** Photon-ml linear-model records of gdmix/util/io_utils.py: decoding one record into a
    dense coefficient vector with the intercept last (`get_one_model_weights`, nested in
    `load_linear_models_from_avro`), and encoding a sparse weight vector plus bias into a
    record with the intercept first (`gen_one_avro_model`). Float64 values are modelled
    as `real`; they are only copied, never computed with. */
module LinearModel {
  import opened Results
  import NameTerm
  import FeatureMap

  /** The name photon-ml gives the intercept entry (its term is empty). */
  const Intercept: string := "(INTERCEPT)"

  /** One entry of a record's `means` list. */
  datatype NameTermValue = NameTermValue(name: string, term: string, value: real)

  /** One model in photon-ml's Bayesian linear model record format. */
  datatype ModelRecord = ModelRecord(modelId: string, modelClass: string, means: seq<NameTermValue>, lossFunction: string)

  /** Is this the intercept entry? Only the exact name with an EMPTY term counts. */
  predicate IsIntercept(e: NameTermValue)
  {
    e.name == Intercept && e.term == ""
  }

  // ---------------------------------------------------------------------------
  // Decoding

  /** The slot of a coefficient vector of `numFeatures + 1` entries that entry `e` writes:
      the last slot for the intercept, the mapped position for a feature in the map, and
      none for any other entry. */
  function Target(e: NameTermValue, featureMap: map<string, nat>, numFeatures: nat): Option<nat>
  {
    if IsIntercept(e) then Some(numFeatures)
    else
      var key := NameTerm.ToString(e.name, e.term);
      if key in featureMap then Some(featureMap[key]) else None
  }

  /** Reference meaning of the decoded vector: slot `k` holds the value of the LAST entry
      that targets it, and 0 when no entry does. */
  function SlotValue(means: seq<NameTermValue>, featureMap: map<string, nat>, numFeatures: nat, k: nat): real
    decreases |means|
  {
    if |means| == 0 then 0.0
    else
      var last := means[|means| - 1];
      if Target(last, featureMap, numFeatures) == Some(k) then last.value
      else SlotValue(means[..|means| - 1], featureMap, numFeatures, k)
  }

  /** Every entry targets a slot inside a vector of `numFeatures + 1` entries. */
  predicate InBounds(means: seq<NameTermValue>, featureMap: map<string, nat>, numFeatures: nat)
  {
    forall i :: 0 <= i < |means| ==> Fits(Target(means[i], featureMap, numFeatures), numFeatures)
  }

  /** A target, if any, is a slot of a vector of `numFeatures + 1` entries. */
  predicate Fits(target: Option<nat>, numFeatures: nat)
  {
    target.Some? ==> target.value <= numFeatures
  }

  /** Extending the entries by one: the new entry overwrites its own target slot only. */
  lemma SlotValueSnoc(means: seq<NameTermValue>, featureMap: map<string, nat>, numFeatures: nat, i: nat)
    requires i < |means|
    ensures forall k: nat ::
      SlotValue(means[..i + 1], featureMap, numFeatures, k) ==
      if Target(means[i], featureMap, numFeatures) == Some(k) then means[i].value
      else SlotValue(means[..i], featureMap, numFeatures, k)
  {
    assert means[..i + 1][..i] == means[..i];
  }

  /** Entries stay in bounds when the next one does. */
  lemma InBoundsSnoc(means: seq<NameTermValue>, featureMap: map<string, nat>, numFeatures: nat, i: nat)
    requires i < |means|
    ensures InBounds(means[..i + 1], featureMap, numFeatures) <==>
      InBounds(means[..i], featureMap, numFeatures) && Fits(Target(means[i], featureMap, numFeatures), numFeatures)
  {
    var longer := means[..i + 1];
    assert forall j :: 0 <= j <= i ==> longer[j] == means[j];
    assert forall j :: 0 <= j < i ==> means[..i][j] == means[j];
  }

  /** A slot no entry targets stays 0. */
  lemma {:induction false} SlotValueUntouched(means: seq<NameTermValue>, featureMap: map<string, nat>, numFeatures: nat, k: nat)
    requires forall i :: 0 <= i < |means| ==> Target(means[i], featureMap, numFeatures) != Some(k)
    ensures SlotValue(means, featureMap, numFeatures, k) == 0.0
    decreases |means|
  {
    if |means| > 0 {
      var prefix := means[..|means| - 1];
      assert forall i :: 0 <= i < |prefix| ==> prefix[i] == means[i];
      SlotValueUntouched(prefix, featureMap, numFeatures, k);
    }
  }

  /** Later entries overwrite earlier ones: a slot holds the value of the last entry
      that targets it. */
  lemma {:induction false} SlotValueLastWins(means: seq<NameTermValue>, featureMap: map<string, nat>, numFeatures: nat, k: nat, j: nat)
    requires j < |means| && Target(means[j], featureMap, numFeatures) == Some(k)
    requires forall i :: j < i < |means| ==> Target(means[i], featureMap, numFeatures) != Some(k)
    ensures SlotValue(means, featureMap, numFeatures, k) == means[j].value
    decreases |means|
  {
    if j < |means| - 1 {
      var prefix := means[..|means| - 1];
      assert forall i :: 0 <= i < |prefix| ==> prefix[i] == means[i];
      SlotValueLastWins(prefix, featureMap, numFeatures, k, j);
    }
  }

  /** The loop of `get_one_model_weights` over a vector of `numFeatures + 1` zeros: each
      entry writes its target slot; a target past the end raises IndexError. */
  method Accumulate(means: seq<NameTermValue>, featureMap: map<string, nat>, numFeatures: nat) returns (r: Result<seq<real>>)
    ensures r.Ok? <==> InBounds(means, featureMap, numFeatures)
    ensures r.Ok? ==> |r.value| == numFeatures + 1
    ensures r.Ok? ==> forall k :: 0 <= k <= numFeatures ==> r.value[k] == SlotValue(means, featureMap, numFeatures, k)
  {
    var coefficients := seq(numFeatures + 1, _ => 0.0);
    var i := 0;
    while i < |means|
      invariant 0 <= i <= |means|
      invariant |coefficients| == numFeatures + 1
      invariant InBounds(means[..i], featureMap, numFeatures)
      invariant forall k :: 0 <= k <= numFeatures ==> coefficients[k] == SlotValue(means[..i], featureMap, numFeatures, k)
    {
      SlotValueSnoc(means, featureMap, numFeatures, i);
      InBoundsSnoc(means, featureMap, numFeatures, i);
      var target := Target(means[i], featureMap, numFeatures);
      if target.Some? {
        if target.value > numFeatures {
          assert !InBounds(means, featureMap, numFeatures) by {
            assert !Fits(Target(means[i], featureMap, numFeatures), numFeatures);
          }
          return Err("index out of bounds for axis 0");
        }
        coefficients := coefficients[target.value := means[i].value];
      }
      i := i + 1;
    }
    assert means[..i] == means;
    return Ok(coefficients);
  }

  /** `get_one_model_weights` as written: the vector has `len(feature_map) + 1` slots. */
  method GetOneModelWeights(record: ModelRecord, featureMap: map<string, nat>) returns (r: Result<seq<real>>)
    ensures r.Ok? <==> InBounds(record.means, featureMap, |featureMap|)
    ensures r.Ok? ==> |r.value| == |featureMap| + 1
    ensures r.Ok? ==> forall k :: 0 <= k <= |featureMap| ==> r.value[k] == SlotValue(record.means, featureMap, |featureMap|, k)
  {
    r := Accumulate(record.means, featureMap, |featureMap|);
  }

  /** Last value carried by an intercept entry, or 0 when there is none. */
  function InterceptValue(means: seq<NameTermValue>): real
  {
    if |means| == 0 then 0.0
    else if IsIntercept(means[|means| - 1]) then means[|means| - 1].value
    else InterceptValue(means[..|means| - 1])
  }

  /** When every mapped position is below `numFeatures`, only intercept entries reach the
      last slot, so it holds the intercept. */
  lemma {:induction false} LastSlotIsIntercept(means: seq<NameTermValue>, featureMap: map<string, nat>, numFeatures: nat)
    requires forall f :: f in featureMap ==> featureMap[f] < numFeatures
    ensures SlotValue(means, featureMap, numFeatures, numFeatures) == InterceptValue(means)
    decreases |means|
  {
    if |means| > 0 {
      LastSlotIsIntercept(means[..|means| - 1], featureMap, numFeatures);
    }
  }

  /** Decoding against the feature list itself, with the vector sized by the list's
      length: no target falls outside, the last slot is the intercept, and each feature
      slot holds the last value given for that feature. */
  method LoadModelWeights(record: ModelRecord, features: seq<string>) returns (coefficients: seq<real>)
    ensures |coefficients| == |features| + 1
    ensures coefficients[|features|] == InterceptValue(record.means)
    ensures forall k :: 0 <= k < |features| ==> coefficients[k] == SlotValue(record.means, FeatureMap.Build(features), |features|, k)
  {
    var featureMap := FeatureMap.Build(features);
    FeatureMap.BuildPositions(features);
    var r := Accumulate(record.means, featureMap, |features|);
    LastSlotIsIntercept(record.means, featureMap, |features|);
    coefficients := r.value;
  }

  /** On a feature list without repeated lines the decoder as written and the corrected
      one agree. `len(feature_map)` is the number of lines, so the two vectors have the same
      size. No target falls outside, so the decode as written succeeds. The slot the source
      reserves for the intercept holds the intercept. Given these three facts, the contract
      of `GetOneModelWeights` on `FeatureMap.Build(features)` is the contract of
      `LoadModelWeights` on `features`. */
  lemma DecodersAgree(means: seq<NameTermValue>, features: seq<string>)
    requires FeatureMap.Distinct(features)
    ensures |FeatureMap.Build(features)| == |features|
    ensures InBounds(means, FeatureMap.Build(features), |features|)
    ensures SlotValue(means, FeatureMap.Build(features), |features|, |features|) == InterceptValue(means)
  {
    var featureMap := FeatureMap.Build(features);
    FeatureMap.DistinctBuild(features);
    FeatureMap.BuildPositions(features);
    forall i | 0 <= i < |means|
      ensures Fits(Target(means[i], featureMap, |features|), |features|)
    {
    }
    LastSlotIsIntercept(means, featureMap, |features|);
  }

  /** With duplicated names in the feature file, `get_one_model_weights` sizes its vector
      by the number of DISTINCT names while positions count every line: ["a,", "a,", "b,"]
      maps "b," to 2 = len(feature_map), the intercept's slot, so a record with intercept
      1.0 and b = 2.0 decodes to [0, 0, 2.0] and the intercept is lost. */
  lemma DuplicateFeatureHitsInterceptSlot()
    ensures var featureMap := FeatureMap.Build(["a,", "a,", "b,"]);
            var means := [NameTermValue(Intercept, "", 1.0), NameTermValue("b", "", 2.0)];
            && |featureMap| == 2
            && InBounds(means, featureMap, |featureMap|)
            && SlotValue(means, featureMap, |featureMap|, |featureMap|) == 2.0
            && InterceptValue(means) == 1.0
  {
    var features := ["a,", "a,", "b,"];
    assert features[..2] == ["a,", "a,"] && features[..2][..1] == ["a,"] && features[..2][..1][..0] == [];
    assert FeatureMap.Build(["a,"]) == map["a," := 0];
    assert FeatureMap.Build(["a,", "a,"]) == map["a," := 1];
    var featureMap := FeatureMap.Build(features);
    assert featureMap == map["a," := 1, "b," := 2];
    assert |featureMap| == |{"a,", "b,"}| == 2;
    assert NameTerm.ToString("b", "") == "b,";
    var means := [NameTermValue(Intercept, "", 1.0), NameTermValue("b", "", 2.0)];
    assert Target(means[1], featureMap, 2) == Some(2);
    assert means[..1] == [means[0]];
  }

  /** With ["a,", "a,", "a,", "b,"] the position of "b," is 3, past the end of a vector of
      len(feature_map) + 1 = 3 slots, and the decode raises IndexError. */
  lemma DuplicateFeatureOutOfBounds()
    ensures var featureMap := FeatureMap.Build(["a,", "a,", "a,", "b,"]);
            && |featureMap| == 2
            && !InBounds([NameTermValue("b", "", 2.0)], featureMap, |featureMap|)
  {
    var features := ["a,", "a,", "a,", "b,"];
    assert features[..3] == ["a,", "a,", "a,"] && features[..3][..2] == ["a,", "a,"];
    assert features[..3][..2][..1] == ["a,"] && features[..3][..2][..1][..0] == [];
    assert FeatureMap.Build(["a,"]) == map["a," := 0];
    assert FeatureMap.Build(["a,", "a,"]) == map["a," := 1];
    assert FeatureMap.Build(["a,", "a,", "a,"]) == map["a," := 2];
    var featureMap := FeatureMap.Build(features);
    assert featureMap == map["a," := 2, "b," := 3];
    assert |featureMap| == |{"a,", "b,"}| == 2;
    assert NameTerm.ToString("b", "") == "b,";
    var means := [NameTermValue("b", "", 2.0)];
    assert Target(means[0], featureMap, 2) == Some(3);
    assert !Fits(Target(means[0], featureMap, 2), 2);
  }

  // ---------------------------------------------------------------------------
  // Encoding

  /** Python's `xs[i]` on a list: a negative index counts from the end; out of range
      raises IndexError (`None` here). */
  function PyIndex<T>(xs: seq<T>, i: int): (r: Option<T>)
    ensures r.Some? <==> -|xs| <= i < |xs|
    ensures r.Some? ==> r.value in xs
  {
    if 0 <= i < |xs| then Some(xs[i])
    else if -|xs| <= i < 0 then Some(xs[|xs| + i])
    else None
  }

  /** A negative index and the non-negative one it wraps to name the same element, and a
      non-negative index names the element at that position. */
  lemma PyIndexWraps<T>(xs: seq<T>, i: int)
    requires 0 <= i < |xs|
    ensures PyIndex(xs, i) == Some(xs[i])
    ensures PyIndex(xs, i - |xs|) == PyIndex(xs, i)
  {
  }

  /** Length of `zip(xs, ys)`. */
  function ZipLength(m: nat, n: nat): nat
  {
    if m <= n then m else n
  }

  /** Index `i` selects a feature and that feature parses as "name,term". */
  predicate EncodableAt(features: seq<string>, i: int)
  {
    PyIndex(features, i).Some? && NameTerm.Commas(PyIndex(features, i).value) <= 1
  }

  /** Every zipped index selects a parsable feature. */
  predicate Encodable(indices: seq<int>, features: seq<string>, count: nat)
    requires count <= |indices|
  {
    forall j :: 0 <= j < count ==> EncodableAt(features, indices[j])
  }

  /** Entry `e` names the feature at index `i` and carries `value`. */
  predicate Encodes(e: NameTermValue, features: seq<string>, i: int, value: real)
  {
    && PyIndex(features, i).Some?
    && NameTerm.FromString(PyIndex(features, i).value) == Ok((e.name, e.term))
    && e.value == value
  }

  /** The loop of `gen_one_avro_model` over `zip(weight_indices, weight_values)`: one entry
      per pair, named after the indexed feature and carrying the paired value. The first
      bad index or unparsable feature raises. */
  function EncodeWeights(indices: seq<int>, values: seq<real>, features: seq<string>): (r: Result<seq<NameTermValue>>)
    ensures r.Ok? <==> Encodable(indices, features, ZipLength(|indices|, |values|))
    ensures r.Ok? ==> |r.value| == ZipLength(|indices|, |values|)
    ensures r.Ok? ==> forall j :: 0 <= j < |r.value| ==> Encodes(r.value[j], features, indices[j], values[j])
    decreases |indices|
  {
    if |indices| == 0 || |values| == 0 then Ok([])
    else
      var feature := PyIndex(features, indices[0]);
      if feature.None? then Err("list index out of range")
      else
        var nameTerm := NameTerm.FromString(feature.value);
        if nameTerm.Err? then Err(nameTerm.message)
        else
          var rest := EncodeWeights(indices[1..], values[1..], features);
          EncodableShift(indices, values, features);
          if rest.Err? then rest
          else
            var head := NameTermValue(nameTerm.value.0, nameTerm.value.1, values[0]);
            EncodesCons(head, rest.value, indices, values, features);
            Ok([head] + rest.value)
  }

  /** Entry-wise encoding, one pair at a time. */
  lemma EncodesCons(head: NameTermValue, rest: seq<NameTermValue>, indices: seq<int>, values: seq<real>, features: seq<string>)
    requires |indices| > 0 && |values| > 0 && |rest| < |indices| && |rest| < |values|
    requires Encodes(head, features, indices[0], values[0])
    requires forall j :: 0 <= j < |rest| ==> Encodes(rest[j], features, indices[1..][j], values[1..][j])
    ensures forall j :: 0 <= j < |rest| + 1 ==> Encodes(([head] + rest)[j], features, indices[j], values[j])
  {
    forall j | 0 <= j < |rest| + 1
      ensures Encodes(([head] + rest)[j], features, indices[j], values[j])
    {
      if j > 0 {
        assert ([head] + rest)[j] == rest[j - 1];
        assert indices[1..][j - 1] == indices[j] && values[1..][j - 1] == values[j];
      }
    }
  }

  /** Encodability of the zipped pairs, one pair at a time. */
  lemma EncodableShift(indices: seq<int>, values: seq<real>, features: seq<string>)
    requires |indices| > 0 && |values| > 0
    ensures Encodable(indices, features, ZipLength(|indices|, |values|)) <==>
      EncodableAt(features, indices[0]) && Encodable(indices[1..], features, ZipLength(|indices| - 1, |values| - 1))
  {
    var count := ZipLength(|indices|, |values|);
    assert forall j :: 1 <= j < count ==> indices[1..][j - 1] == indices[j];
    if EncodableAt(features, indices[0]) && Encodable(indices[1..], features, count - 1) {
      forall j | 0 <= j < count ensures EncodableAt(features, indices[j]) {
        if j > 0 { assert indices[j] == indices[1..][j - 1]; }
      }
    }
  }

  /** `gen_one_avro_model`: the intercept entry carrying `bias` first, then one entry per
      zipped (index, value) pair in order. */
  function GenOneAvroModel(modelId: string, modelClass: string, indices: seq<int>, values: seq<real>,
                           bias: real, features: seq<string>): (r: Result<ModelRecord>)
    ensures r.Ok? <==> Encodable(indices, features, ZipLength(|indices|, |values|))
    ensures r.Ok? ==> r.value.modelId == modelId && r.value.modelClass == modelClass && r.value.lossFunction == ""
    ensures r.Ok? ==> |r.value.means| == ZipLength(|indices|, |values|) + 1
    ensures r.Ok? ==> r.value.means[0] == NameTermValue(Intercept, "", bias)
    ensures r.Ok? ==> forall j :: 0 <= j < |r.value.means| - 1 ==> Encodes(r.value.means[j + 1], features, indices[j], values[j])
  {
    var entries := EncodeWeights(indices, values, features);
    if entries.Err? then Err(entries.message)
    else
      var means := [NameTermValue(Intercept, "", bias)] + entries.value;
      assert forall j :: 0 <= j < |entries.value| ==> means[j + 1] == entries.value[j];
      Ok(ModelRecord(modelId, modelClass, means, ""))
  }

  // ---------------------------------------------------------------------------
  // Round trip

  /** The sparse weights to encode name distinct features of the list. */
  predicate SparseWeights(indices: seq<int>, values: seq<real>, features: seq<string>)
  {
    && |indices| == |values|
    && (forall j :: 0 <= j < |indices| ==> 0 <= indices[j] < |features|)
    && FeatureMap.Distinct(indices)
  }

  /** A feature list the record format can carry: distinct "name,term" strings with exactly
      one comma, none of them the intercept's own name. */
  predicate WellFormedFeatures(features: seq<string>)
  {
    && FeatureMap.Distinct(features)
    && (forall i :: 0 <= i < |features| ==> NameTerm.Commas(features[i]) == 1)
    && (forall i :: 0 <= i < |features| ==> features[i] != NameTerm.ToString(Intercept, ""))
  }

  /** Each encoded feature entry targets the position of its feature. */
  lemma {:induction false} EncodedTarget(e: NameTermValue, features: seq<string>, i: nat)
    requires WellFormedFeatures(features) && i < |features|
    requires NameTerm.FromString(features[i]) == Ok((e.name, e.term))
    ensures Target(e, FeatureMap.Build(features), |features|) == Some(i)
  {
    FeatureMap.DistinctBuild(features);
    assert NameTerm.ToString(e.name, e.term) == features[i];
  }

  /** Entry 0 targets the intercept slot `n` and entry `j + 1` targets `indices[j]`. */
  predicate SparseLayout(means: seq<NameTermValue>, featureMap: map<string, nat>, n: nat, indices: seq<int>)
  {
    && |means| == |indices| + 1
    && Target(means[0], featureMap, n) == Some(n)
    && forall j :: 0 <= j < |indices| ==> Target(means[j + 1], featureMap, n) == Some(indices[j])
  }

  /** Decoding entries laid out as an intercept followed by distinct in-range positions. */
  lemma {:induction false} DecodeSparse(means: seq<NameTermValue>, featureMap: map<string, nat>, n: nat, indices: seq<int>)
    requires SparseLayout(means, featureMap, n, indices)
    requires FeatureMap.Distinct(indices)
    requires forall j :: 0 <= j < |indices| ==> 0 <= indices[j] < n
    ensures InBounds(means, featureMap, n)
    ensures SlotValue(means, featureMap, n, n) == means[0].value
    ensures forall j :: 0 <= j < |indices| ==> SlotValue(means, featureMap, n, indices[j]) == means[j + 1].value
    ensures forall k :: 0 <= k < n && k !in indices ==> SlotValue(means, featureMap, n, k) == 0.0
  {
    forall i | 0 < i < |means|
      ensures Target(means[i], featureMap, n) == Some(indices[i - 1])
    {
      assert Target(means[(i - 1) + 1], featureMap, n) == Some(indices[i - 1]);
    }
    assert InBounds(means, featureMap, n);
    SlotValueLastWins(means, featureMap, n, n, 0);
    forall j | 0 <= j < |indices|
      ensures SlotValue(means, featureMap, n, indices[j]) == means[j + 1].value
    {
      SlotValueLastWins(means, featureMap, n, indices[j], j + 1);
    }
    forall k | 0 <= k < n && k !in indices
      ensures SlotValue(means, featureMap, n, k) == 0.0
    {
      SlotValueUntouched(means, featureMap, n, k);
    }
  }

  /** An encoded record lays out the intercept first and then the positions of the
      indexed features. */
  lemma {:induction false} EncodedLayout(modelId: string, modelClass: string, indices: seq<int>, values: seq<real>,
                      bias: real, features: seq<string>)
    requires WellFormedFeatures(features)
    requires SparseWeights(indices, values, features)
    ensures GenOneAvroModel(modelId, modelClass, indices, values, bias, features).Ok?
    ensures SparseLayout(GenOneAvroModel(modelId, modelClass, indices, values, bias, features).value.means,
                         FeatureMap.Build(features), |features|, indices)
  {
    assert Encodable(indices, features, |indices|) by {
      forall j | 0 <= j < |indices| ensures EncodableAt(features, indices[j]) {
        assert PyIndex(features, indices[j]) == Some(features[indices[j]]);
      }
    }
    var means := GenOneAvroModel(modelId, modelClass, indices, values, bias, features).value.means;
    forall j | 0 <= j < |indices|
      ensures Target(means[j + 1], FeatureMap.Build(features), |features|) == Some(indices[j])
    {
      assert Encodes(means[j + 1], features, indices[j], values[j]);
      assert PyIndex(features, indices[j]) == Some(features[indices[j]]);
      EncodedTarget(means[j + 1], features, indices[j]);
    }
  }

  /** Encoding then decoding with the feature map of the same list gives back the dense
      vector: the bias in the last slot, each value at its index, and 0 elsewhere. */
  lemma {:induction false} EncodeDecodeRoundTrip(modelId: string, modelClass: string, indices: seq<int>, values: seq<real>,
                              bias: real, features: seq<string>)
    requires WellFormedFeatures(features)
    requires SparseWeights(indices, values, features)
    ensures GenOneAvroModel(modelId, modelClass, indices, values, bias, features).Ok?
    ensures var means := GenOneAvroModel(modelId, modelClass, indices, values, bias, features).value.means;
            var featureMap := FeatureMap.Build(features);
            && |featureMap| == |features|
            && InBounds(means, featureMap, |featureMap|)
            && SlotValue(means, featureMap, |featureMap|, |featureMap|) == bias
            && (forall j :: 0 <= j < |indices| ==> SlotValue(means, featureMap, |featureMap|, indices[j]) == values[j])
            && (forall k :: 0 <= k < |features| && k !in indices ==> SlotValue(means, featureMap, |featureMap|, k) == 0.0)
  {
    FeatureMap.DistinctBuild(features);
    EncodedLayout(modelId, modelClass, indices, values, bias, features);
    var means := GenOneAvroModel(modelId, modelClass, indices, values, bias, features).value.means;
    DecodeSparse(means, FeatureMap.Build(features), |features|, indices);
  }
}
