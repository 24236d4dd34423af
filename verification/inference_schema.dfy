/** `get_inference_output_avro_schema` of gdmix/util/io_utils.py: the Avro record schema
    of the inference output, whose fields depend on flags and on the dataset metadata. */
module InferenceSchema {
  import opened Results

  /** The Avro primitive type of a field. */
  datatype AvroType = Long | Float | Int

  datatype Field = Field(name: string, kind: AvroType)

  datatype RecordSchema = RecordSchema(name: string, kind: string, fields: seq<Field>)

  /** The column names configured for the output (`labelName` is the `label` parameter). */
  datatype SchemaParams = SchemaParams(
    sampleId: string,
    predictionScore: string,
    labelName: string,
    sampleWeight: string,
    predictionScorePerCoordinate: string)

  function Count(b: bool): nat
  {
    if b then 1 else 0
  }

  /** `has_weight or metadata.get(sample_weight) is not None`: a missing key and a key bound
      to `None` both read as `None`. */
  predicate WeightPresent<V>(metadata: map<string, Option<V>>, params: SchemaParams, hasWeight: bool)
  {
    hasWeight || (params.sampleWeight in metadata && metadata[params.sampleWeight].Some?)
  }

  /** The schema always opens with the sample id and the prediction score; then come the
      label, the sample weight and the per-coordinate score, in that order, each only when
      its condition holds. */
  function InferenceOutputSchema<V>(metadata: map<string, Option<V>>, hasLabel: bool, hasLogitsPerCoordinate: bool,
                                    params: SchemaParams, hasWeight: bool): (r: RecordSchema)
    ensures r.name == "validation_result" && r.kind == "record"
    ensures |r.fields| == 2 + Count(hasLabel) + Count(WeightPresent(metadata, params, hasWeight)) + Count(hasLogitsPerCoordinate)
    ensures r.fields[0] == Field(params.sampleId, Long)
    ensures r.fields[1] == Field(params.predictionScore, Float)
    ensures hasLabel ==> r.fields[2] == Field(params.labelName, Int)
    ensures WeightPresent(metadata, params, hasWeight) ==> r.fields[2 + Count(hasLabel)] == Field(params.sampleWeight, Float)
    ensures hasLogitsPerCoordinate ==> r.fields[|r.fields| - 1] == Field(params.predictionScorePerCoordinate, Float)
  {
    var base := [Field(params.sampleId, Long), Field(params.predictionScore, Float)];
    var withLabel := if hasLabel then base + [Field(params.labelName, Int)] else base;
    var withWeight := if WeightPresent(metadata, params, hasWeight) then withLabel + [Field(params.sampleWeight, Float)] else withLabel;
    var fields := if hasLogitsPerCoordinate then withWeight + [Field(params.predictionScorePerCoordinate, Float)] else withWeight;
    RecordSchema("validation_result", "record", fields)
  }

  /** The five fields the schema may hold, in output order. */
  function Candidates(params: SchemaParams): seq<Field>
  {
    [Field(params.sampleId, Long), Field(params.predictionScore, Float), Field(params.labelName, Int),
     Field(params.sampleWeight, Float), Field(params.predictionScorePerCoordinate, Float)]
  }

  /** The elements of `xs` whose flag is set, in order. */
  function Keep<T>(xs: seq<T>, flags: seq<bool>): seq<T>
    requires |xs| == |flags|
  {
    if |xs| == 0 then []
    else Keep(xs[..|xs| - 1], flags[..|flags| - 1]) + (if flags[|flags| - 1] then [xs[|xs| - 1]] else [])
  }

  /** The schema's fields are the candidate fields filtered by their conditions: the id and
      the score always, the label, weight and per-coordinate score when their flags hold,
      and nothing else. */
  lemma SchemaKeepsCandidates<V>(metadata: map<string, Option<V>>, hasLabel: bool, hasLogitsPerCoordinate: bool,
                                 params: SchemaParams, hasWeight: bool)
    ensures InferenceOutputSchema(metadata, hasLabel, hasLogitsPerCoordinate, params, hasWeight).fields ==
      Keep(Candidates(params), [true, true, hasLabel, WeightPresent(metadata, params, hasWeight), hasLogitsPerCoordinate])
  {
    var c := Candidates(params);
    var weight := WeightPresent(metadata, params, hasWeight);
    var flags := [true, true, hasLabel, weight, hasLogitsPerCoordinate];
    assert Keep(c[..2], flags[..2]) == [c[0], c[1]] by {
      assert c[..2][..1] == [c[0]] && flags[..2][..1] == [true];
      assert Keep([c[0]], [true]) == [c[0]] by {
        assert [c[0]][..0] == [] && [true][..0] == [];
      }
    }
    assert Keep(c[..3], flags[..3]) == [c[0], c[1]] + (if hasLabel then [c[2]] else []) by {
      assert c[..3][..2] == c[..2] && flags[..3][..2] == flags[..2];
    }
    assert Keep(c[..4], flags[..4]) == Keep(c[..3], flags[..3]) + (if weight then [c[3]] else []) by {
      assert c[..4][..3] == c[..3] && flags[..4][..3] == flags[..3];
    }
    assert Keep(c, flags) == Keep(c[..4], flags[..4]) + (if hasLogitsPerCoordinate then [c[4]] else []);
  }
}
