# GDMix I/O helpers and random-effect training consumer, in Dafny

GDMix trains generalized deep mixed models. It has a fixed-effect model shared by all
samples, plus random-effect models fitted separately for each entity (each user, each item).
This project models two parts of its trainer and proves properties of them.

- **Photon-ml linear-model records** (`gdmix/util/io_utils.py`).
  - A feature is written as the single string `"name,term"`: modules `NameTerm` and `FeatureMap`.
  - The feature file becomes a feature -> position map: `FeatureMap`.
  - A model record decodes into a dense coefficient vector with the intercept LAST: `LinearModel`.
  - A sparse weight vector plus a bias encodes into a record with the intercept FIRST: `LinearModel`.
  - The module also covers the chunking of an output stream (`Chunking`), the argparse boolean
    converter (`BoolArg`) and the inference-output Avro schema (`InferenceSchema`).
- **The random-effect training consumer**
  (`gdmix/models/custom/scipy/training_job_consumer.py`, module `TrainingJobConsumer`).
  - A worker takes per-entity training jobs off a queue.
  - Each job is fitted with the entity's previous coefficients as a warm start.
  - The worker stores a `TrainingResult` per entity and logs progress every 1000 jobs.
  - The loop is a fold over the items the worker receives. The trainer's `fit` is a function
    parameter with no interpretation.

Python exceptions become the `Err` case of `Results.Result`. These are the `AssertionError` of
`name_term_from_string`, an `IndexError`, `ValueError` from `islice`, and
`ArgumentTypeError`. Float64 values are modelled as `real`. The modelled code only copies
them and never computes with them.

On the consumer's timeout the model follows the code. The loop is
`iter(lambda: queue.get(True, timeout), None)`. When the timed `get` expires it raises
`queue.Empty`, and that exception propagates out of the loop. It does not end the loop
quietly. Only the `None` sentinel ends the loop normally. `Consume` therefore reports
`QueueEmpty` when it runs past the last item it was given, and `SentinelSeen` on the sentinel.

## Model

| member | source | states |
|---|---|---|
| NameTerm.Split | gdmix-trainer/src/gdmix/util/io_utils.py:176 | Python's `split(',')`, which always yields at least one piece; its meaning is pinned down by `SplitJoin` and `JoinSplit` |
| NameTerm.SplitJoin | gdmix-trainer/src/gdmix/util/io_utils.py:176 | `split(',')` yields comma-free pieces, one more than the commas in the input, and joining them with ',' gives the input back |
| NameTerm.JoinSplit | gdmix-trainer/src/gdmix/util/io_utils.py:176-188 | joining comma-free pieces with ',' and splitting again returns exactly those pieces |
| NameTerm.ToString | gdmix-trainer/src/gdmix/util/io_utils.py:181-188 | `name_term_to_string`, whose behaviour is stated by `ToStringCommas` and `ToStringFromString`: the separator is always written, even for an empty term |
| NameTerm.ToStringCommas | gdmix-trainer/src/gdmix/util/io_utils.py:181-188 | `name_term_to_string` always writes the separator, so the result has the commas of name and term plus one |
| NameTerm.FromString | gdmix-trainer/src/gdmix/util/io_utils.py:170-178 | the assertion fails exactly when there are two or more commas; with no comma the name is the whole string and the term is empty; with one comma the two comma-free sides print back to the input |
| NameTerm.ToStringFromString | gdmix-trainer/src/gdmix/util/io_utils.py:170-188 | a comma-free name and term (an empty term included) survive printing then parsing |
| NameTerm.FromStringToString | gdmix-trainer/src/gdmix/util/io_utils.py:170-188 | parsing then printing returns a one-comma string unchanged, but adds a trailing comma to a string without one |
| FeatureMap.Build | gdmix-trainer/src/gdmix/util/io_utils.py:199-201 | `dict(zip(feature_list, range(n)))` built by insertion in list order; its keys and positions are stated by `BuildPositions` |
| FeatureMap.BuildPositions | gdmix-trainer/src/gdmix/util/io_utils.py:191-201 | the keys are exactly the listed names; each maps to a position holding that name, and no later position holds it (the last occurrence wins) |
| FeatureMap.DistinctBuild | gdmix-trainer/src/gdmix/util/io_utils.py:199-201 | for a duplicate-free list there is one entry per line, and each name maps to its own line number |
| LinearModel.Target | gdmix-trainer/src/gdmix/util/io_utils.py:67-74 | the slot an entry writes: the last slot for `(INTERCEPT)` with an empty term, the mapped position for a printed name in the map, and none otherwise; its effect on decoding is stated by `Accumulate` and `LastSlotIsIntercept` |
| LinearModel.SlotValueUntouched | gdmix-trainer/src/gdmix/util/io_utils.py:65 | a slot that no entry writes keeps its initial 0 |
| LinearModel.SlotValueLastWins | gdmix-trainer/src/gdmix/util/io_utils.py:66-74 | a slot holds the value of the last entry that writes it |
| LinearModel.Accumulate | gdmix-trainer/src/gdmix/util/io_utils.py:64-75 | the loop succeeds exactly when every target is inside the vector; the vector then has `num_features + 1` slots, each holding the last value written to it, or 0 |
| LinearModel.GetOneModelWeights | gdmix-trainer/src/gdmix/util/io_utils.py:57-75 | decoding as written, with `len(feature_map) + 1` slots: IndexError exactly when a mapped position falls outside |
| LinearModel.LastSlotIsIntercept | gdmix-trainer/src/gdmix/util/io_utils.py:68-69 | when every mapped position is below `num_features`, the last slot holds the last intercept value (name `(INTERCEPT)`, empty term), or 0 |
| LinearModel.LoadModelWeights | gdmix-trainer/src/gdmix/util/io_utils.py:57-83 | the corrected decoder of the finding below: the vector has one slot per feature LINE, not `len(feature_map)` slots, so it never fails; the last slot is the intercept and each feature slot holds its last value. It agrees with the source on duplicate-free feature lists (stated by `DecodersAgree`) and differs from it when a line repeats |
| LinearModel.DecodersAgree | gdmix-trainer/src/gdmix/util/io_utils.py:57-83 | on a feature list without repeated lines: `len(feature_map)` equals the number of lines, every target is inside the vector (so the decode as written succeeds), and the last slot holds the intercept. With these facts the as-written decoder's contract is the corrected decoder's |
| LinearModel.DuplicateFeatureHitsInterceptSlot | gdmix-trainer/src/gdmix/util/io_utils.py:64-74 | with feature lines `a,`, `a,`, `b,` the feature `b` is written to the intercept's slot and the intercept 1.0 is lost |
| LinearModel.DuplicateFeatureOutOfBounds | gdmix-trainer/src/gdmix/util/io_utils.py:64-74 | with feature lines `a,`, `a,`, `a,`, `b,` the position of `b` is past the end of the vector, so decoding raises |
| LinearModel.PyIndex | gdmix-trainer/src/gdmix/util/io_utils.py:103 | `feature_list[w_i]` raises IndexError exactly outside `-len <= i < len`, and any element it returns is one of the list's |
| LinearModel.PyIndexWraps | gdmix-trainer/src/gdmix/util/io_utils.py:103 | a non-negative index names the element at that position, and the negative index `i - len` names the same element |
| LinearModel.EncodeWeights | gdmix-trainer/src/gdmix/util/io_utils.py:102-106 | one entry per zipped (index, value) pair, in order, each naming the parsed indexed feature with the paired value; fails exactly when some zipped index is out of range or names an unparsable feature |
| LinearModel.GenOneAvroModel | gdmix-trainer/src/gdmix/util/io_utils.py:87-107 | the record carries id and class, an empty loss function, the intercept with the bias first, and then the encoded pairs |
| LinearModel.EncodedTarget | gdmix-trainer/src/gdmix/util/io_utils.py:71-73 | an entry parsed from a well-formed feature line is written back to that line's slot on decoding |
| LinearModel.DecodeSparse | gdmix-trainer/src/gdmix/util/io_utils.py:64-75 | entries laid out as an intercept followed by distinct in-range slots decode into: the intercept last, each value at its slot, 0 elsewhere |
| LinearModel.EncodedLayout | gdmix-trainer/src/gdmix/util/io_utils.py:98-106 | an encoded record has exactly that layout, with the slots being the weight indices |
| LinearModel.EncodeDecodeRoundTrip | gdmix-trainer/src/gdmix/util/io_utils.py:57-107 | encoding a sparse weight vector and decoding it with the map of the same feature list gives the dense vector back: bias last, `values[j]` at `indices[j]`, 0 elsewhere |
| Chunking.Chunks | gdmix-trainer/src/gdmix/util/io_utils.py:307-314 | for a positive size the chunks are non-empty, concatenate to the input, and all but the last have exactly the size; size 0 or an empty input yields no chunk |
| Chunking.ChunkedIterator | gdmix-trainer/src/gdmix/util/io_utils.py:307-314 | a size below 0 or above `sys.maxsize` (64-bit) raises ValueError, and no other size does; for a size in `1..sys.maxsize` nothing is lost or reordered |
| BoolArg.Lower | gdmix-trainer/src/gdmix/util/io_utils.py:231 | ASCII lower-casing: the length is kept, no upper-case letter remains, other characters stay in place, and each upper-case letter becomes its lower-case partner |
| BoolArg.LowerIdempotent | gdmix-trainer/src/gdmix/util/io_utils.py:231 | lower-casing twice gives the same string as lower-casing once |
| BoolArg.Str2Bool | gdmix-trainer/src/gdmix/util/io_utils.py:223-233 | a bool passes through; a string is true exactly when it spells "true" in any mix of case; any other value raises ArgumentTypeError |
| InferenceSchema.InferenceOutputSchema | gdmix-trainer/src/gdmix/util/io_utils.py:341-349 | the record `validation_result` always opens with id (long) and score (float); label (int), weight (float) and per-coordinate score (float) follow in that order; each is present only under its flag, and the weight also when the metadata has a non-None entry for it |
| InferenceSchema.SchemaKeepsCandidates | gdmix-trainer/src/gdmix/util/io_utils.py:341-349 | the fields are exactly the five candidate fields filtered by their conditions |
| TrainingJobConsumer.LoopBody | gdmix-trainer/src/gdmix/models/custom/scipy/training_job_consumer.py:43-59 | one iteration of the loop body; its effect is stated by `Step` |
| TrainingJobConsumer.Step | gdmix-trainer/src/gdmix/models/custom/scipy/training_job_consumer.py:43-59 | the same function as `LoopBody`, with its contract attached. One job: only its entity's entry changes and it holds the fitted coefficients with the job's indices; the warm start is that entity's stored coefficients or None; the counter goes up by one; a progress message is added exactly at multiples of 1000 |
| TrainingJobConsumer.ProcessJobs | gdmix-trainer/src/gdmix/models/custom/scipy/training_job_consumer.py:41-59 | the body applied to a sequence of jobs in order; its bookkeeping is stated by `ProcessJobsCounts`, `ProcessJobsFrame` and the lemmas after them |
| TrainingJobConsumer.Consume | gdmix-trainer/src/gdmix/models/custom/scipy/training_job_consumer.py:41-59 | the loop over received items, stopping at the `None` sentinel or with `queue.Empty` past the last item; stated by `ConsumeProcessesPending` and `ConsumeIgnoresRest` |
| TrainingJobConsumer.PendingIsPrefix | gdmix-trainer/src/gdmix/models/custom/scipy/training_job_consumer.py:41 | the jobs taken are the items in front of the first sentinel, in order, and the sentinel follows them when there is one |
| TrainingJobConsumer.ConsumeProcessesPending | gdmix-trainer/src/gdmix/models/custom/scipy/training_job_consumer.py:41-59 | the loop runs the body over exactly those jobs; it ends on the sentinel if one was received, and otherwise with `queue.Empty` |
| TrainingJobConsumer.ConsumeIgnoresRest | gdmix-trainer/src/gdmix/models/custom/scipy/training_job_consumer.py:41 | nothing queued behind a sentinel affects the run |
| TrainingJobConsumer.ConsumerRun | gdmix-trainer/src/gdmix/models/custom/scipy/training_job_consumer.py:39-59 | a whole run: counter and fit calls equal the job count; one message per thousand; keys gained are the jobs' entities; other entries untouched |
| TrainingJobConsumer.ProcessJobsAppend | gdmix-trainer/src/gdmix/models/custom/scipy/training_job_consumer.py:41-59 | running two batches of jobs one after the other is the same as running their concatenation |
| TrainingJobConsumer.ProcessJobsCounts | gdmix-trainer/src/gdmix/models/custom/scipy/training_job_consumer.py:47-57 | each job adds one fit call and one count, and earlier calls are kept |
| TrainingJobConsumer.ProcessJobsFrame | gdmix-trainer/src/gdmix/models/custom/scipy/training_job_consumer.py:53-55 | no entry is removed, the keys added are the jobs' entities, and an entity with no job keeps its entry |
| TrainingJobConsumer.RequestOfJob | gdmix-trainer/src/gdmix/models/custom/scipy/training_job_consumer.py:45-51 | job k is fitted with its own data, warm-started from the store as the earlier jobs left it |
| TrainingJobConsumer.LastJobWins | gdmix-trainer/src/gdmix/models/custom/scipy/training_job_consumer.py:53-55 | after a run, an entity's entry is the result of its last job |
| TrainingJobConsumer.WarmStartFromPreviousJob | gdmix-trainer/src/gdmix/models/custom/scipy/training_job_consumer.py:45-51 | a repeat job for an entity starts from the coefficients fitted for that entity's previous job |
| TrainingJobConsumer.FirstSightIsCold | gdmix-trainer/src/gdmix/models/custom/scipy/training_job_consumer.py:45-46 | the first job of an entity with no stored entry is fitted without a warm start |
| TrainingJobConsumer.ProgressAfterJobs | gdmix-trainer/src/gdmix/models/custom/scipy/training_job_consumer.py:57-59 | from a state that already follows the cadence, the messages are exactly 1000, 2000, ... up to the count: `count / 1000` of them |
| TrainingJobConsumer.ShapeKept | gdmix-trainer/src/gdmix/models/custom/scipy/training_job_consumer.py:47-55 | if `fit` returns one coefficient per global index plus the intercept, every stored result keeps that shape |

## Left out

- Reading and writing files is not modelled. This covers the feature file, the Avro
  reader and writer, `export_linear_model_to_avro`, `read_json_file` and the batched Avro
  writer. The feature list and the records are inputs instead.
- `dataset_reader` and `namedtuple_with_defaults` are not modelled. They are TensorFlow
  session plumbing and namedtuple construction, with no logic of their own to state.
- The trainer's `fit` is not modelled: its L-BFGS optimisation, its regularisation
  settings and the `tolerance / eps` precision computation. `fit` is a parameter, and only
  the arguments of its calls and element 0 of its result are modelled.
- The `multiprocessing` queue is a finite sequence of items. Concurrent consumers, the
  shared-dictionary proxy, the timeout length and the consumer id are left out.
- Log messages are modelled only by the counts they report.
- The text of exception messages is not modelled. An `Err` carries a descriptive string, but
  no contract speaks of it. Python's own messages differ: the `repr` quoting of the
  offending string, and numpy's "index 3 is out of bounds for axis 0 with size 3".
- BoolArg.Lower: lower-cases only ASCII letters. Python's `str.lower()` also lower-cases other
  letters, and it does not always keep the length or work character by character. U+0130
  becomes two characters, and a final capital sigma is lowered according to its context.
  No non-ASCII character lower-cases to one of `t`, `r`, `u`, `e`, and a string that lowers to
  "true" must have four characters, so the result of `str2bool` is unchanged.
- NameTerm.FromString: assumes Python assertions are enabled. Under `python -O` the
  assertion on line 177 is removed, and `"a,b,c"` then parses to `("a", "b")` instead of
  failing.
- TrainingJobConsumer.Consume: `fit` is a total function here. In the source, a `fit` that
  raises, or a result with no element 0, ends `__call__` with that exception. Entries written
  by earlier jobs are kept. The model has no such exit and does not state this fail-fast
  path.
- Chunking.ChunkedIterator: models only integer sizes. A `None` size, where `islice` takes
  everything, is not modelled. The upper bound `sys.maxsize` is fixed at its 64-bit value,
  `2^63 - 1`; on a 32-bit build it is `2^31 - 1`. Each chunk is the list of its elements rather than a lazy
  iterator over the shared stream. A caller that leaves a chunk unconsumed would see the
  rest of that chunk at the start of the next one.
- Chunking.Chunks: states the sizes of the chunks but not their number,
  `ceil(len / size)`.
- TrainingJobConsumer.ShapeKept: holds only under an assumption about `fit`'s output
  length. The trainer's code is not part of this model.
- LinearModel.GetOneModelWeights: negative feature positions are not modelled. Positions
  come from `range(n)`, so numpy's negative indexing cannot arise.

## Findings

| source | as written | input that shows it | evidently intended | confidence | as-written member | corrected member |
|---|---|---|---|---|---|---|
| gdmix-trainer/src/gdmix/util/io_utils.py:64-74 | the vector has `len(feature_map) + 1` slots, but positions come from line numbers, so a duplicated feature line makes the map shorter than the list | feature lines `a,`, `a,`, `b,` with a record holding intercept 1.0 and `b` 2.0: `b` goes to slot 2, the intercept's, and the intercept is lost. With `a,`, `a,`, `a,`, `b,` the position 3 is out of bounds and decoding raises IndexError | one slot per feature line, intercept last and never overwritten by a feature | medium, not executed (duplicate lines in a feature file may be ruled out by convention) | LinearModel.GetOneModelWeights, LinearModel.DuplicateFeatureHitsInterceptSlot | LinearModel.LoadModelWeights |
