/** The integer control of the tutorial's training loop (lines 99-108 and
    252-271): the batch count, batching with `drop_remainder`, the epoch
    loop that calls `train_step` once per batch, the checkpoint cadence and
    the per-epoch loss that is printed. `train_step` itself and the
    shuffling are parameters. */
module Training {
  const BATCH_SIZE: nat := 64
  const EPOCHS: nat := 10

  /** `steps_per_epoch = len(input_tensor_train) // BATCH_SIZE` (line 101). */
  function StepsPerEpoch(n: nat): (k: nat)
    ensures k * BATCH_SIZE <= n < (k + 1) * BATCH_SIZE
  {
    n / BATCH_SIZE
  }

  /** `dataset.batch(BATCH_SIZE, drop_remainder = True)` (line 108):
      consecutive batches of exactly `BATCH_SIZE` rows; a last, shorter
      batch is dropped. */
  function Batches<T>(s: seq<T>): (r: seq<seq<T>>)
    ensures |r| == |s| / BATCH_SIZE
    ensures forall i | 0 <= i < |r| :: |r[i]| == BATCH_SIZE
    decreases |s|
  {
    if |s| < BATCH_SIZE then [] else [s[..BATCH_SIZE]] + Batches(s[BATCH_SIZE..])
  }

  function Flatten<T>(ss: seq<seq<T>>): seq<T>
  {
    if ss == [] then [] else ss[0] + Flatten(ss[1..])
  }

  /** The batches hold the rows in their order, each row once; only the
      last `|s| % BATCH_SIZE` rows, fewer than a batch, are left out. */
  lemma {:induction false} BatchesCover<T>(s: seq<T>)
    ensures Flatten(Batches(s)) == s[..|s| / BATCH_SIZE * BATCH_SIZE]
    ensures |s| - |s| / BATCH_SIZE * BATCH_SIZE < BATCH_SIZE
    decreases |s|
  {
    if |s| >= BATCH_SIZE {
      var t := s[BATCH_SIZE..];
      BatchesCover(t);
      var k := |t| / BATCH_SIZE;
      assert |s| / BATCH_SIZE == k + 1;
      assert s[..BATCH_SIZE] + t[..k * BATCH_SIZE] == s[..(k + 1) * BATCH_SIZE];
    }
  }

  /** Batch `i` holds rows `64 * i` to `64 * i + 63`. */
  lemma {:induction false} BatchAt<T>(s: seq<T>, i: nat)
    requires i < |s| / BATCH_SIZE
    ensures (i + 1) * BATCH_SIZE <= |s|
    ensures Batches(s)[i] == s[i * BATCH_SIZE..(i + 1) * BATCH_SIZE]
    decreases |s|
  {
    if i > 0 {
      var t := s[BATCH_SIZE..];
      BatchAt(t, i - 1);
      var lo := (i - 1) * BATCH_SIZE;
      assert lo + BATCH_SIZE == i * BATCH_SIZE;
      assert Batches(s)[i] == Batches(t)[i - 1];
      assert t[lo..lo + BATCH_SIZE] == s[lo + BATCH_SIZE..lo + 2 * BATCH_SIZE];
    }
  }

  /** `dataset.take(k)`. */
  function Take<T>(s: seq<T>, k: nat): (r: seq<T>)
    ensures |r| == if k < |s| then k else |s|
    ensures r <= s
  {
    if k < |s| then s[..k] else s
  }

  // ---------------------------------------------------------------------
  // Checkpoint cadence (line 267)

  /** A checkpoint is written after the (0-based) epoch `e`. */
  predicate CheckpointDue(e: nat)
  {
    (e + 1) % 2 == 0
  }

  /** The epochs, in order, after which a run of `n` epochs writes a
      checkpoint. */
  function SavedEpochs(n: nat): seq<nat>
  {
    if n == 0 then [] else SavedEpochs(n - 1) + (if CheckpointDue(n - 1) then [n - 1] else [])
  }

  /** The saves follow exactly the epochs that are due, in increasing
      order. */
  lemma {:induction false} SavedEpochsContents(n: nat)
    ensures forall e: nat :: e in SavedEpochs(n) <==> e < n && CheckpointDue(e)
    ensures forall i | 0 <= i < |SavedEpochs(n)| :: SavedEpochs(n)[i] < n
    ensures forall i, j | 0 <= i < j < |SavedEpochs(n)| :: SavedEpochs(n)[i] < SavedEpochs(n)[j]
  {
    if n > 0 {
      SavedEpochsContents(n - 1);
    }
  }

  /** Every second epoch saves: `n` epochs write `n / 2` checkpoints. */
  lemma {:induction false} SavedCount(n: nat)
    ensures |SavedEpochs(n)| == n / 2
  {
    if n > 0 {
      SavedCount(n - 1);
      assert CheckpointDue(n - 1) <==> n % 2 == 0;
    }
  }

  /** With `EPOCHS = 10`, the saves follow the 0-based epochs 1, 3, 5, 7, 9,
      printed as epochs 2, 4, 6, 8 and 10. */
  lemma TenEpochs()
    ensures SavedEpochs(EPOCHS) == [1, 3, 5, 7, 9]
  {
    assert SavedEpochs(2) == [1];
    assert SavedEpochs(4) == [1, 3];
    assert SavedEpochs(6) == [1, 3, 5];
    assert SavedEpochs(8) == [1, 3, 5, 7];
  }

  // ---------------------------------------------------------------------
  // The epoch loop (lines 252-271)

  /** One call of `train_step`: the 0-based epoch, the batch index and the
      rows of the batch. */
  datatype StepCall<T> = StepCall(epoch: nat, batch: nat, rows: seq<T>)

  /** How the loop, taken on its own, ends: normally, or with the
      `ZeroDivisionError` of line 270 when there are fewer rows than one
      batch. */
  datatype Outcome = Completed | DividedByZero(epoch: nat)

  /** What a run of the loop does: the `train_step` calls in order, the
      epochs after which a checkpoint is saved, the loss printed for each
      epoch, and how it ends. */
  datatype TrainingRun<T> = TrainingRun(calls: seq<StepCall<T>>, saves: seq<nat>,
                                        losses: seq<real>, outcome: Outcome)

  /** The batches epoch `e` trains on: the epoch's shuffle of the rows, in
      batches, at most `steps` of them. */
  function EpochBatches<T>(order: nat -> seq<T>, steps: nat, e: nat): seq<seq<T>>
  {
    Take(Batches(order(e)), steps)
  }

  /** The `train_step` calls of epoch `e`. */
  function EpochCalls<T>(order: nat -> seq<T>, steps: nat, e: nat): (r: seq<StepCall<T>>)
    ensures |r| == |EpochBatches(order, steps, e)|
    ensures forall b | 0 <= b < |r| :: r[b] == StepCall(e, b, EpochBatches(order, steps, e)[b])
  {
    var bs := EpochBatches(order, steps, e);
    seq(|bs|, b requires 0 <= b < |bs| => StepCall(e, b, bs[b]))
  }

  /** The calls of the first `n` epochs. */
  function CallsUpTo<T>(order: nat -> seq<T>, steps: nat, n: nat): seq<StepCall<T>>
  {
    if n == 0 then [] else CallsUpTo(order, steps, n - 1) + EpochCalls(order, steps, n - 1)
  }

  /** `total_loss`: the sum of the batch losses. */
  function TotalLoss<T>(trainStep: StepCall<T> -> real, cs: seq<StepCall<T>>): real
  {
    if cs == [] then 0.0 else TotalLoss(trainStep, cs[..|cs| - 1]) + trainStep(cs[|cs| - 1])
  }

  /** The loss printed for epoch `e` (line 270): its summed batch losses
      divided by `steps_per_epoch`. */
  function EpochLoss<T>(order: nat -> seq<T>, trainStep: StepCall<T> -> real, steps: nat, e: nat): real
    requires steps > 0
  {
    TotalLoss(trainStep, EpochCalls(order, steps, e)) / steps as real
  }

  /** The losses printed for the first `n` epochs. */
  function LossesUpTo<T>(order: nat -> seq<T>, trainStep: StepCall<T> -> real, steps: nat, n: nat): (r: seq<real>)
    requires steps > 0
    ensures |r| == n
  {
    seq(n, e requires 0 <= e < n => EpochLoss(order, trainStep, steps, e))
  }

  /** What the loop does for `epochs` epochs over `rows`, when epoch `e`
      sees the rows in the order `order(e)` and `train_step` returns
      `trainStep(c)` for the call `c`. */
  function Planned<T>(epochs: nat, rows: seq<T>, order: nat -> seq<T>,
                      trainStep: StepCall<T> -> real): TrainingRun<T>
  {
    var steps := StepsPerEpoch(|rows|);
    if epochs == 0 then TrainingRun([], [], [], Completed)
    else if steps == 0 then TrainingRun([], [], [], DividedByZero(0))
    else TrainingRun(CallsUpTo(order, steps, epochs), SavedEpochs(epochs),
                     LossesUpTo(order, trainStep, steps, epochs), Completed)
  }

  /** The inner loop of lines 259-264: one `train_step` per batch of the
      epoch, summing the batch losses into `total_loss`. */
  method RunEpoch<T>(order: nat -> seq<T>, trainStep: StepCall<T> -> real, steps: nat, epoch: nat)
    returns (calls: seq<StepCall<T>>, totalLoss: real)
    ensures calls == EpochCalls(order, steps, epoch)
    ensures totalLoss == TotalLoss(trainStep, calls)
  {
    var batches := EpochBatches(order, steps, epoch);
    ghost var planned := EpochCalls(order, steps, epoch);
    calls := [];
    totalLoss := 0.0;
    var batch := 0;
    while batch < |batches|
      invariant batch <= |batches|
      invariant calls == planned[..batch]
      invariant totalLoss == TotalLoss(trainStep, calls)
    {
      var call := StepCall(epoch, batch, batches[batch]);
      assert planned[..batch + 1] == calls + [call];
      var batchLoss := trainStep(call);
      calls := calls + [call];
      totalLoss := totalLoss + batchLoss;
      batch := batch + 1;
    }
    assert planned[..batch] == planned;
  }

  /** Lines 101 and 253-271: the batch count, then the epoch loop, taken on
      its own. With fewer rows than one batch, the first epoch takes no
      batch, saves nothing (epoch 0 is not due) and divides by zero at line
      270. (In the whole script, line 109 already fails on the empty
      batched dataset.) */
  method Train<T>(epochs: nat, rows: seq<T>, order: nat -> seq<T>,
                  trainStep: StepCall<T> -> real) returns (run: TrainingRun<T>)
    ensures run == Planned(epochs, rows, order, trainStep)
  {
    var steps := StepsPerEpoch(|rows|);
    if epochs == 0 {
      return TrainingRun([], [], [], Completed);
    }
    if steps == 0 {
      var epochCalls, totalLoss := RunEpoch(order, trainStep, steps, 0);
      EpochCallsNoSteps(order, 0);
      return TrainingRun(epochCalls, [], [], DividedByZero(0));
    }
    var calls, saves, losses := EpochLoop(epochs, steps, order, trainStep);
    run := TrainingRun(calls, saves, losses, Completed);
  }

  /** The loop of lines 253-271 once `steps_per_epoch` is positive: the
      calls, saves and printed losses of `epochs` epochs. */
  method EpochLoop<T>(epochs: nat, steps: nat, order: nat -> seq<T>, trainStep: StepCall<T> -> real)
    returns (calls: seq<StepCall<T>>, saves: seq<nat>, losses: seq<real>)
    requires steps > 0
    ensures calls == CallsUpTo(order, steps, epochs)
    ensures saves == SavedEpochs(epochs)
    ensures losses == LossesUpTo(order, trainStep, steps, epochs)
  {
    calls, saves, losses := [], [], [];
    var epoch: nat := 0;
    while epoch < epochs
      invariant epoch <= epochs
      invariant calls == CallsUpTo(order, steps, epoch)
      invariant saves == SavedEpochs(epoch)
      invariant losses == LossesUpTo(order, trainStep, steps, epoch)
    {
      var epochCalls, totalLoss := RunEpoch(order, trainStep, steps, epoch);
      EpochStep(order, trainStep, steps, epoch, totalLoss);
      calls := calls + epochCalls;
      if (epoch + 1) % 2 == 0 {
        saves := saves + [epoch];
      }
      losses := losses + [totalLoss / steps as real];
      epoch := epoch + 1;
    }
  }

  /** What one more epoch adds to the calls, the saves and the losses. */
  lemma EpochStep<T>(order: nat -> seq<T>, trainStep: StepCall<T> -> real, steps: nat, epoch: nat, totalLoss: real)
    requires totalLoss == TotalLoss(trainStep, EpochCalls(order, steps, epoch))
    ensures CallsUpTo(order, steps, epoch + 1) == CallsUpTo(order, steps, epoch) + EpochCalls(order, steps, epoch)
    ensures SavedEpochs(epoch + 1) == SavedEpochs(epoch) + if (epoch + 1) % 2 == 0 then [epoch] else []
    ensures steps > 0 ==> LossesUpTo(order, trainStep, steps, epoch + 1)
                          == LossesUpTo(order, trainStep, steps, epoch) + [totalLoss / steps as real]
  {
  }

  /** Without a whole batch, the first epoch takes no batch. */
  lemma EpochCallsNoSteps<T>(order: nat -> seq<T>, e: nat)
    ensures EpochCalls(order, 0, e) == []
  {
  }

  // ---------------------------------------------------------------------
  // What a run does

  /** The loop, taken on its own, fails with `ZeroDivisionError` exactly
      when it runs at all and the training set holds fewer rows than one
      batch; it fails in the first epoch, before any `train_step` call and
      before any save. */
  lemma PlannedDividesByZero<T>(epochs: nat, rows: seq<T>, order: nat -> seq<T>,
                                trainStep: StepCall<T> -> real)
    ensures var run := Planned(epochs, rows, order, trainStep);
            && (run.outcome != Completed <==> epochs > 0 && |rows| < BATCH_SIZE)
            && (run.outcome != Completed ==>
                  run.outcome == DividedByZero(0) && run.calls == [] && run.saves == [] && run.losses == [])
  {
  }

  /** A completed run saves a checkpoint after every second epoch and
      prints one loss per epoch: the epoch's summed batch losses divided by
      `steps_per_epoch`. */
  lemma PlannedCompleted<T>(epochs: nat, rows: seq<T>, order: nat -> seq<T>,
                            trainStep: StepCall<T> -> real)
    requires Planned(epochs, rows, order, trainStep).outcome == Completed
    ensures var run := Planned(epochs, rows, order, trainStep);
            && run.saves == SavedEpochs(epochs) && |run.saves| == epochs / 2
            && |run.losses| == epochs
            && forall e | 0 <= e < epochs ::
                 run.losses[e] == TotalLoss(trainStep, EpochCalls(order, StepsPerEpoch(|rows|), e))
                                  / StepsPerEpoch(|rows|) as real
  {
    SavedCount(epochs);
  }

  /** Each epoch sees the training rows in a new order (the shuffle). */
  ghost predicate Shuffles<T>(order: nat -> seq<T>, rows: seq<T>)
  {
    forall e: nat :: multiset(order(e)) == multiset(rows)
  }

  /** With the rows shuffled anew each epoch, epoch `e` runs `train_step`
      exactly `steps_per_epoch` times, on batches of exactly 64 rows; batch
      `b` is rows `64 * b` to `64 * b + 63` of the epoch's order, and no row
      is trained on twice in one epoch. */
  lemma EpochShape<T>(order: nat -> seq<T>, rows: seq<T>, e: nat)
    requires Shuffles(order, rows)
    ensures var steps := StepsPerEpoch(|rows|);
            var cs := EpochCalls(order, steps, e);
            && |cs| == steps
            && (forall b | 0 <= b < steps ::
                  && cs[b].epoch == e && cs[b].batch == b && |cs[b].rows| == BATCH_SIZE
                  && cs[b].rows == order(e)[b * BATCH_SIZE..(b + 1) * BATCH_SIZE])
            && multiset(Flatten(EpochBatches(order, steps, e))) <= multiset(rows)
  {
    var steps := StepsPerEpoch(|rows|);
    AllBatchesTaken(order, rows, e);
    var bs := Batches(order(e));
    forall b | 0 <= b < steps ensures bs[b] == order(e)[b * BATCH_SIZE..(b + 1) * BATCH_SIZE] {
      BatchAt(order(e), b);
    }
    BatchesCover(order(e));
    PrefixMultiset(order(e), |order(e)| / BATCH_SIZE * BATCH_SIZE);
  }

  lemma PrefixMultiset<T>(s: seq<T>, k: nat)
    requires k <= |s|
    ensures multiset(s[..k]) <= multiset(s)
  {
    assert s == s[..k] + s[k..];
  }

  /** A completed run over shuffled rows calls `train_step`
      `epochs * steps_per_epoch` times; call `e * steps + b` is call `b` of
      epoch `e`, which `EpochShape` describes. */
  lemma CompletedRunCalls<T>(epochs: nat, rows: seq<T>, order: nat -> seq<T>,
                             trainStep: StepCall<T> -> real)
    requires Shuffles(order, rows)
    requires Planned(epochs, rows, order, trainStep).outcome == Completed
    ensures var run := Planned(epochs, rows, order, trainStep);
            var steps := StepsPerEpoch(|rows|);
            && |run.calls| == epochs * steps
            && forall e, b | 0 <= e < epochs && 0 <= b < steps ::
                 e * steps + b < |run.calls| && run.calls[e * steps + b] == EpochCalls(order, steps, e)[b]
  {
    var cs := CompletedCalls(epochs, rows, order, trainStep);
    CallsAt(order, rows, epochs);
  }

  lemma CompletedCalls<T>(epochs: nat, rows: seq<T>, order: nat -> seq<T>,
                          trainStep: StepCall<T> -> real) returns (cs: seq<StepCall<T>>)
    requires Planned(epochs, rows, order, trainStep).outcome == Completed
    ensures cs == Planned(epochs, rows, order, trainStep).calls
    ensures cs == CallsUpTo(order, StepsPerEpoch(|rows|), epochs)
  {
    cs := Planned(epochs, rows, order, trainStep).calls;
  }

  /** With shuffled rows, `take(steps_per_epoch)` takes every batch. */
  lemma AllBatchesTaken<T>(order: nat -> seq<T>, rows: seq<T>, e: nat)
    requires Shuffles(order, rows)
    ensures EpochBatches(order, StepsPerEpoch(|rows|), e) == Batches(order(e))
    ensures |Batches(order(e))| == StepsPerEpoch(|rows|)
  {
    assert |order(e)| == |rows| by {
      assert |multiset(order(e))| == |multiset(rows)|;
    }
  }

  /** A run of `epochs` completed epochs makes `epochs * steps` calls; call
      number `e * steps + b` is batch `b` of epoch `e`. */
  lemma CallsAt<T>(order: nat -> seq<T>, rows: seq<T>, n: nat)
    requires Shuffles(order, rows)
    ensures var steps := StepsPerEpoch(|rows|);
            var cs := CallsUpTo(order, steps, n);
            && |cs| == n * steps
            && forall e, b | 0 <= e < n && 0 <= b < steps ::
                 e * steps + b < |cs| && cs[e * steps + b] == EpochCalls(order, steps, e)[b]
  {
    var steps := StepsPerEpoch(|rows|);
    forall e | 0 <= e < n ensures |EpochCalls(order, steps, e)| == steps {
      EpochShape(order, rows, e);
    }
    CallsAtSteps(order, steps, n);
  }

  lemma CallsAtSteps<T>(order: nat -> seq<T>, steps: nat, n: nat)
    requires forall e | 0 <= e < n :: |EpochCalls(order, steps, e)| == steps
    ensures var cs := CallsUpTo(order, steps, n);
            && |cs| == n * steps
            && forall e, b | 0 <= e < n && 0 <= b < steps ::
                 e * steps + b < |cs| && cs[e * steps + b] == EpochCalls(order, steps, e)[b]
  {
    var cs := CallsUpTo(order, steps, n);
    CallsLength(order, steps, n);
    forall e, b | 0 <= e < n && 0 <= b < steps
      ensures e * steps + b < |cs| && cs[e * steps + b] == EpochCalls(order, steps, e)[b]
    {
      CallsLength(order, steps, e);
      CallsLength(order, steps, e + 1);
      CallsPrefix(order, steps, e + 1, n);
      var upto := CallsUpTo(order, steps, e + 1);
      assert upto == CallsUpTo(order, steps, e) + EpochCalls(order, steps, e);
      MulSucc(e, steps);
      assert upto[e * steps + b] == EpochCalls(order, steps, e)[b];
    }
  }

  /** The calls of the first `e` epochs come first. */
  lemma {:induction false} CallsPrefix<T>(order: nat -> seq<T>, steps: nat, e: nat, n: nat)
    requires e <= n
    ensures CallsUpTo(order, steps, e) <= CallsUpTo(order, steps, n)
  {
    if e < n {
      CallsPrefix(order, steps, e, n - 1);
    }
  }

  lemma {:induction false} CallsLength<T>(order: nat -> seq<T>, steps: nat, n: nat)
    requires forall e | 0 <= e < n :: |EpochCalls(order, steps, e)| == steps
    ensures |CallsUpTo(order, steps, n)| == n * steps
  {
    if n > 0 {
      CallsLength(order, steps, n - 1);
      MulSucc(n - 1, steps);
    }
  }

  lemma MulSucc(m: nat, steps: nat)
    ensures m * steps + steps == (m + 1) * steps
  {
  }
}
