/** The consumer loop of gdmix/models/custom/scipy/training_job_consumer.py, run by one
    worker over the items it takes off the shared job queue, in order.

    The queue is the finite sequence of items this consumer receives. An item is a training
    job or the `None` end marker. Running past the last item stands for `get(True,
    timeout)` waiting out its timeout, which raises `queue.Empty` out of the loop. The
    shared result dictionary is a map from entity id to `TrainingResult`, and the trainer's
    `fit` is an uninterpreted function parameter. */
module TrainingJobConsumer {
  import opened Results

  /** `_CONSUMER_LOGGING_FREQUENCY`: progress is reported after every this many jobs. */
  const LoggingFrequency: nat := 1000

  /** One entity's training data: feature matrix, labels, sample weights, offsets, and the
      global feature indices of the matrix's columns. */
  datatype TrainingJob<E> = TrainingJob(
    entityId: E,
    x: seq<seq<real>>,
    y: seq<real>,
    weights: seq<real>,
    offsets: seq<real>,
    uniqueGlobalIndices: seq<int>)

  /** The `TrainingResult` named tuple stored per entity. */
  datatype TrainingResult = TrainingResult(trainingResult: seq<real>, uniqueGlobalIndices: seq<int>)

  /** The arguments of one `lr_trainer.fit(...)` call; `thetaInitial` is the warm start. */
  datatype FitRequest = FitRequest(
    x: seq<seq<real>>,
    y: seq<real>,
    weights: seq<real>,
    offsets: seq<real>,
    thetaInitial: Option<seq<real>>)

  /** What `fit` returns; the loop keeps only element 0, the coefficients. */
  datatype FitOutput = FitOutput(theta: seq<real>, loss: real)

  /** An item taken off the queue: a job, or the `None` sentinel. */
  datatype Item<E> = Job(job: TrainingJob<E>) | Sentinel

  /** How the loop ended: on the sentinel, or with `queue.Empty` raised by the timed get. */
  datatype Exit = SentinelSeen | QueueEmpty

  /** What a run of the loop has done so far: the shared results, `processed_counter`, the
      counts reported by the progress messages, and every `fit` call made, in order. */
  datatype ConsumerState<E> = ConsumerState(
    store: map<E, TrainingResult>,
    processed: nat,
    progress: seq<nat>,
    requests: seq<FitRequest>)

  /** A consumer starting on a (possibly pre-filled) shared result map. */
  function Start<E>(store: map<E, TrainingResult>): ConsumerState<E>
  {
    ConsumerState(store, 0, [], [])
  }

  /** The stored coefficients of an entity seen before, else `None`. */
  function WarmStart<E>(store: map<E, TrainingResult>, entityId: E): Option<seq<real>>
  {
    if entityId in store then Some(store[entityId].trainingResult) else None
  }

  /** The `fit` call made for `job` with warm start `thetaInitial`. */
  function RequestFor<E>(job: TrainingJob<E>, thetaInitial: Option<seq<real>>): FitRequest
  {
    FitRequest(job.x, job.y, job.weights, job.offsets, thetaInitial)
  }

  /** One iteration of the loop body: warm-start lookup, fit, overwrite of the entity's
      entry, counter increment and the periodic progress message. */
  function LoopBody<E>(st: ConsumerState<E>, job: TrainingJob<E>, fit: FitRequest -> FitOutput): ConsumerState<E>
  {
    var request := RequestFor(job, WarmStart(st.store, job.entityId));
    var result := TrainingResult(fit(request).theta, job.uniqueGlobalIndices);
    var count := st.processed + 1;
    ConsumerState(
      st.store[job.entityId := result],
      count,
      if count % LoggingFrequency == 0 then st.progress + [count] else st.progress,
      st.requests + [request])
  }

  /** What one iteration does. Only the job's own entry changes, it holds the fitted
      coefficients with the job's indices carried through, the warm start is the entity's
      previous coefficients, and a message is added exactly when the new count is a multiple
      of 1000. The folds below use `LoopBody` itself so that proofs about long runs do not
      carry this contract at every step. */
  function Step<E>(st: ConsumerState<E>, job: TrainingJob<E>, fit: FitRequest -> FitOutput): (r: ConsumerState<E>)
    ensures r.store.Keys == st.store.Keys + {job.entityId}
    ensures forall e :: e in st.store && e != job.entityId ==> r.store[e] == st.store[e]
    ensures r.processed == st.processed + 1
    ensures r.requests == st.requests + [RequestFor(job, WarmStart(st.store, job.entityId))]
    ensures r.requests[|st.requests|].thetaInitial ==
      (if job.entityId in st.store then Some(st.store[job.entityId].trainingResult) else None)
    ensures r.store[job.entityId] == TrainingResult(fit(r.requests[|st.requests|]).theta, job.uniqueGlobalIndices)
    ensures r.progress == st.progress + (if r.processed % LoggingFrequency == 0 then [r.processed] else [])
  {
    LoopBody(st, job, fit)
  }

  /** The loop body applied to each job in turn. */
  function ProcessJobs<E>(st: ConsumerState<E>, jobs: seq<TrainingJob<E>>, fit: FitRequest -> FitOutput): ConsumerState<E>
    decreases |jobs|
  {
    if |jobs| == 0 then st else ProcessJobs(LoopBody(st, jobs[0], fit), jobs[1..], fit)
  }

  /** `for training_job in iter(lambda: queue.get(True, timeout), None)`: run the body on
      each job until the sentinel; past the last item the timed get raises. */
  function Consume<E>(items: seq<Item<E>>, st: ConsumerState<E>, fit: FitRequest -> FitOutput): (ConsumerState<E>, Exit)
    decreases |items|
  {
    if |items| == 0 then (st, QueueEmpty)
    else match items[0]
      case Sentinel => (st, SentinelSeen)
      case Job(job) => Consume(items[1..], LoopBody(st, job, fit), fit)
  }

  /** The jobs before the first sentinel. */
  function Pending<E>(items: seq<Item<E>>): seq<TrainingJob<E>>
  {
    if |items| == 0 then []
    else match items[0]
      case Sentinel => []
      case Job(job) => [job] + Pending(items[1..])
  }

  // ---------------------------------------------------------------------------
  // The sentinel

  /** The jobs taken are exactly the items in front of the first sentinel, in order. */
  lemma {:induction false} PendingIsPrefix<E>(items: seq<Item<E>>)
    ensures |Pending(items)| <= |items|
    ensures forall i :: 0 <= i < |Pending(items)| ==> items[i] == Job(Pending(items)[i])
    ensures |Pending(items)| < |items| <==> Sentinel in items
    ensures |Pending(items)| < |items| ==> items[|Pending(items)|] == Sentinel
    decreases |items|
  {
    if |items| > 0 && items[0].Job? {
      PendingIsPrefix(items[1..]);
      var p := Pending(items);
      assert p == [items[0].job] + Pending(items[1..]);
      forall i | 0 <= i < |p| ensures items[i] == Job(p[i]) {
        if i > 0 { assert items[i] == items[1..][i - 1]; }
      }
      assert Sentinel in items <==> Sentinel in items[1..] by {
        assert items == [items[0]] + items[1..];
      }
    }
  }

  /** The loop runs the body over the jobs in front of the first sentinel, stops on the
      sentinel when there is one, and otherwise ends with `queue.Empty`. */
  lemma {:induction false} ConsumeProcessesPending<E>(items: seq<Item<E>>, st: ConsumerState<E>, fit: FitRequest -> FitOutput)
    ensures Consume(items, st, fit).0 == ProcessJobs(st, Pending(items), fit)
    ensures Consume(items, st, fit).1 == (if Sentinel in items then SentinelSeen else QueueEmpty)
    decreases |items|
  {
    if |items| > 0 {
      assert items == [items[0]] + items[1..];
      if items[0].Job? {
        ConsumeProcessesPending(items[1..], Step(st, items[0].job, fit), fit);
        var p := Pending(items);
        assert p[0] == items[0].job && p[1..] == Pending(items[1..]);
      }
    }
  }

  /** Items behind a sentinel are never taken off the queue. */
  lemma {:induction false} ConsumeIgnoresRest<E>(items: seq<Item<E>>, rest: seq<Item<E>>, st: ConsumerState<E>, fit: FitRequest -> FitOutput)
    requires Sentinel in items
    ensures Consume(items + rest, st, fit) == Consume(items, st, fit)
    decreases |items|
  {
    assert items[0] == (items + rest)[0];
    if items[0].Job? {
      assert Sentinel in items[1..] by {
        assert items == [items[0]] + items[1..];
      }
      assert (items + rest)[1..] == items[1..] + rest;
      ConsumeIgnoresRest(items[1..], rest, Step(st, items[0].job, fit), fit);
    }
  }

  /** A whole run of the consumer from a fresh counter: `processed_counter` is the number
      of jobs in front of the first sentinel, one progress message went out per thousand of
      them, the keys gained are those jobs' entities, and every other entry is untouched. */
  lemma ConsumerRun<E>(items: seq<Item<E>>, store: map<E, TrainingResult>, fit: FitRequest -> FitOutput)
    ensures var r := Consume(items, Start(store), fit).0;
      && r.processed == |Pending(items)|
      && |r.requests| == |Pending(items)|
      && ProgressCadence(r.progress, r.processed)
      && r.store.Keys == store.Keys + EntityIds(Pending(items))
      && forall e :: e in store && e !in EntityIds(Pending(items)) ==> r.store[e] == store[e]
  {
    ConsumeProcessesPending(items, Start(store), fit);
    ProcessJobsCounts(Start(store), Pending(items), fit);
    ProgressAfterJobs(Start(store), Pending(items), fit);
    ProcessJobsFrame(Start(store), Pending(items), fit);
  }

  // ---------------------------------------------------------------------------
  // Bookkeeping over a sequence of jobs

  /** Running two job sequences one after the other is running their concatenation. */
  lemma {:induction false} ProcessJobsAppend<E>(st: ConsumerState<E>, a: seq<TrainingJob<E>>, b: seq<TrainingJob<E>>, fit: FitRequest -> FitOutput)
    ensures ProcessJobs(st, a + b, fit) == ProcessJobs(ProcessJobs(st, a, fit), b, fit)
    decreases |a|
  {
    if |a| == 0 {
      assert a + b == b;
    } else {
      assert (a + b)[0] == a[0] && (a + b)[1..] == a[1..] + b;
      ProcessJobsAppend(Step(st, a[0], fit), a[1..], b, fit);
    }
  }

  /** One fit call per job, appended to the calls made before, and one count per job. */
  lemma {:induction false} ProcessJobsCounts<E>(st: ConsumerState<E>, jobs: seq<TrainingJob<E>>, fit: FitRequest -> FitOutput)
    ensures ProcessJobs(st, jobs, fit).processed == st.processed + |jobs|
    ensures |ProcessJobs(st, jobs, fit).requests| == |st.requests| + |jobs|
    ensures forall i :: 0 <= i < |st.requests| ==> ProcessJobs(st, jobs, fit).requests[i] == st.requests[i]
    decreases |jobs|
  {
    if |jobs| > 0 {
      var next := Step(st, jobs[0], fit);
      ProcessJobsCounts(next, jobs[1..], fit);
      var r := ProcessJobs(next, jobs[1..], fit).requests;
      assert r[..|st.requests|] == r[..|next.requests|][..|st.requests|];
    }
  }

  /** The entity ids of a job sequence. */
  function EntityIds<E>(jobs: seq<TrainingJob<E>>): set<E>
  {
    set i | 0 <= i < |jobs| :: jobs[i].entityId
  }

  /** No key is removed, the keys added are the jobs' entities, and an entity with no job
      keeps its entry. */
  lemma {:induction false} ProcessJobsFrame<E>(st: ConsumerState<E>, jobs: seq<TrainingJob<E>>, fit: FitRequest -> FitOutput)
    ensures ProcessJobs(st, jobs, fit).store.Keys == st.store.Keys + EntityIds(jobs)
    ensures forall e :: e in st.store && e !in EntityIds(jobs) ==> ProcessJobs(st, jobs, fit).store[e] == st.store[e]
    decreases |jobs|
  {
    if |jobs| > 0 {
      var next := Step(st, jobs[0], fit);
      ProcessJobsFrame(next, jobs[1..], fit);
      EntityIdsCons(jobs);
    }
  }

  /** The entities of a job sequence: the first job's and the rest's. */
  lemma EntityIdsCons<E>(jobs: seq<TrainingJob<E>>)
    requires |jobs| > 0
    ensures EntityIds(jobs) == {jobs[0].entityId} + EntityIds(jobs[1..])
  {
    forall e | e in EntityIds(jobs) ensures e in {jobs[0].entityId} + EntityIds(jobs[1..]) {
      var i :| 0 <= i < |jobs| && jobs[i].entityId == e;
      if i > 0 { assert jobs[1..][i - 1] == jobs[i]; }
    }
    forall e | e in EntityIds(jobs[1..]) ensures e in EntityIds(jobs) {
      var i :| 0 <= i < |jobs[1..]| && jobs[1..][i].entityId == e;
      assert jobs[i + 1] == jobs[1..][i];
    }
  }

  // ---------------------------------------------------------------------------
  // Overwrite and warm start

  /** The `fit` call for job `k` is made with that job's data, warm-started from the store
      as it stands after the jobs before it. */
  lemma {:induction false} RequestOfJob<E>(st: ConsumerState<E>, jobs: seq<TrainingJob<E>>, fit: FitRequest -> FitOutput, k: nat)
    requires k < |jobs|
    ensures |ProcessJobs(st, jobs, fit).requests| == |st.requests| + |jobs|
    ensures ProcessJobs(st, jobs, fit).requests[|st.requests| + k] ==
      RequestFor(jobs[k], WarmStart(ProcessJobs(st, jobs[..k], fit).store, jobs[k].entityId))
    decreases k
  {
    ProcessJobsCounts(st, jobs, fit);
    var next := Step(st, jobs[0], fit);
    assert ProcessJobs(st, jobs, fit) == ProcessJobs(next, jobs[1..], fit);
    if k == 0 {
      StepRequestKept(st, jobs[0], jobs[1..], fit);
      assert jobs[..0] == [];
    } else {
      RequestOfJob(next, jobs[1..], fit, k - 1);
      var before := ProcessJobs(st, jobs[..k], fit);
      assert before == ProcessJobs(next, jobs[1..][..k - 1], fit) by {
        assert jobs[..k][0] == jobs[0] && jobs[..k][1..] == jobs[1..][..k - 1];
      }
      assert jobs[1..][k - 1] == jobs[k];
      var calls := ProcessJobs(next, jobs[1..], fit).requests;
      assert |next.requests| + (k - 1) == |st.requests| + k;
      assert calls[|st.requests| + k] == RequestFor(jobs[k], WarmStart(before.store, jobs[k].entityId));
    }
  }

  /** The call a step makes stays in the record of calls whatever jobs follow. */
  lemma StepRequestKept<E>(st: ConsumerState<E>, job: TrainingJob<E>, rest: seq<TrainingJob<E>>, fit: FitRequest -> FitOutput)
    ensures |ProcessJobs(Step(st, job, fit), rest, fit).requests| > |st.requests|
    ensures ProcessJobs(Step(st, job, fit), rest, fit).requests[|st.requests|] == RequestFor(job, WarmStart(st.store, job.entityId))
  {
    var next := Step(st, job, fit);
    ProcessJobsCounts(next, rest, fit);
    var all := ProcessJobs(next, rest, fit).requests;
    assert all[..|next.requests|][|st.requests|] == all[|st.requests|];
  }

  /** After the jobs, an entity's entry is the result of its LAST job: the coefficients
      `fit` returned for that job and the job's own global indices. */
  lemma {:induction false} LastJobWins<E>(st: ConsumerState<E>, jobs: seq<TrainingJob<E>>, fit: FitRequest -> FitOutput, k: nat)
    requires k < |jobs|
    requires forall j :: k < j < |jobs| ==> jobs[j].entityId != jobs[k].entityId
    ensures |ProcessJobs(st, jobs, fit).requests| == |st.requests| + |jobs|
    ensures jobs[k].entityId in ProcessJobs(st, jobs, fit).store
    ensures var r := ProcessJobs(st, jobs, fit);
      r.store[jobs[k].entityId] == TrainingResult(fit(r.requests[|st.requests| + k]).theta, jobs[k].uniqueGlobalIndices)
    decreases |jobs|
  {
    ProcessJobsCounts(st, jobs, fit);
    var next := Step(st, jobs[0], fit);
    var rest := jobs[1..];
    var r := ProcessJobs(st, jobs, fit);
    assert r == ProcessJobs(next, rest, fit);
    ProcessJobsCounts(next, rest, fit);
    if k == 0 {
      assert jobs[0].entityId !in EntityIds(rest) by {
        forall i | 0 <= i < |rest| ensures rest[i].entityId != jobs[0].entityId {
          assert rest[i] == jobs[i + 1];
        }
      }
      ProcessJobsFrame(next, rest, fit);
      StepRequestKept(st, jobs[0], rest, fit);
    } else {
      forall j | k - 1 < j < |rest| ensures rest[j].entityId != rest[k - 1].entityId {
        assert rest[j] == jobs[j + 1] && rest[k - 1] == jobs[k];
      }
      LastJobWins(next, rest, fit, k - 1);
      assert rest[k - 1] == jobs[k];
    }
  }

  /** A job for an entity processed earlier in the run is warm-started from the
      coefficients fitted for that entity's previous job. */
  lemma WarmStartFromPreviousJob<E>(st: ConsumerState<E>, jobs: seq<TrainingJob<E>>, fit: FitRequest -> FitOutput, j: nat, k: nat)
    requires j < k < |jobs|
    requires jobs[j].entityId == jobs[k].entityId
    requires forall i :: j < i < k ==> jobs[i].entityId != jobs[k].entityId
    ensures |ProcessJobs(st, jobs, fit).requests| == |st.requests| + |jobs|
    ensures var calls := ProcessJobs(st, jobs, fit).requests;
      calls[|st.requests| + k].thetaInitial == Some(fit(calls[|st.requests| + j]).theta)
  {
    RequestOfJob(st, jobs, fit, k);
    var prefix := jobs[..k];
    LastJobWins(st, prefix, fit, j);
    RequestOfJob(st, prefix, fit, j);
    RequestOfJob(st, jobs, fit, j);
    assert prefix[..j] == jobs[..j];
  }

  /** The first job of an entity with no stored entry is fitted without a warm start. */
  lemma FirstSightIsCold<E>(st: ConsumerState<E>, jobs: seq<TrainingJob<E>>, fit: FitRequest -> FitOutput, k: nat)
    requires k < |jobs|
    requires jobs[k].entityId !in st.store
    requires forall i :: 0 <= i < k ==> jobs[i].entityId != jobs[k].entityId
    ensures |ProcessJobs(st, jobs, fit).requests| == |st.requests| + |jobs|
    ensures ProcessJobs(st, jobs, fit).requests[|st.requests| + k].thetaInitial == None
  {
    RequestOfJob(st, jobs, fit, k);
    ProcessJobsFrame(st, jobs[..k], fit);
    assert jobs[k].entityId !in EntityIds(jobs[..k]);
  }

  // ---------------------------------------------------------------------------
  // Progress messages

  /** The progress messages so far are exactly one per completed thousand, in order. */
  predicate ProgressCadence(progress: seq<nat>, processed: nat)
  {
    && |progress| == processed / LoggingFrequency
    && forall i :: 0 <= i < |progress| ==> progress[i] == LoggingFrequency * (i + 1)
  }

  /** From a state that follows the cadence (a fresh start does), `processed_counter` grows
      by the number of jobs and a progress message was emitted at each multiple of 1000
      reached: `n / 1000` messages in all. */
  lemma {:induction false} ProgressAfterJobs<E>(st: ConsumerState<E>, jobs: seq<TrainingJob<E>>, fit: FitRequest -> FitOutput)
    requires ProgressCadence(st.progress, st.processed)
    ensures ProcessJobs(st, jobs, fit).processed == st.processed + |jobs|
    ensures ProgressCadence(ProcessJobs(st, jobs, fit).progress, ProcessJobs(st, jobs, fit).processed)
    decreases |jobs|
  {
    ProcessJobsCounts(st, jobs, fit);
    if |jobs| > 0 {
      var next := Step(st, jobs[0], fit);
      var n := st.processed + 1;
      assert n / LoggingFrequency == st.processed / LoggingFrequency + (if n % LoggingFrequency == 0 then 1 else 0);
      assert forall i :: 0 <= i < |st.progress| ==> next.progress[i] == st.progress[i];
      ProgressAfterJobs(next, jobs[1..], fit);
    }
  }

  // ---------------------------------------------------------------------------
  // Result shape

  /** Every stored coefficient vector has one entry per global index plus the intercept. */
  predicate WellShaped<E>(store: map<E, TrainingResult>)
  {
    forall e :: e in store ==> |store[e].trainingResult| == |store[e].uniqueGlobalIndices| + 1
  }

  /** If `fit` returns one coefficient per column of each job plus the intercept, whatever
      the warm start, the shape invariant of the stored results is kept. */
  lemma {:induction false} ShapeKept<E>(st: ConsumerState<E>, jobs: seq<TrainingJob<E>>, fit: FitRequest -> FitOutput)
    requires WellShaped(st.store)
    requires forall i, t :: 0 <= i < |jobs| ==> |fit(RequestFor(jobs[i], t)).theta| == |jobs[i].uniqueGlobalIndices| + 1
    ensures WellShaped(ProcessJobs(st, jobs, fit).store)
    decreases |jobs|
  {
    if |jobs| > 0 {
      var next := Step(st, jobs[0], fit);
      assert |fit(RequestFor(jobs[0], WarmStart(st.store, jobs[0].entityId))).theta| == |jobs[0].uniqueGlobalIndices| + 1;
      forall i, t | 0 <= i < |jobs[1..]|
        ensures |fit(RequestFor(jobs[1..][i], t)).theta| == |jobs[1..][i].uniqueGlobalIndices| + 1
      {
        assert jobs[1..][i] == jobs[i + 1];
      }
      ShapeKept(next, jobs[1..], fit);
    }
  }
}
