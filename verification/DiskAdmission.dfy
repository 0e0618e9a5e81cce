/**
 Admission of work to the disk manager: any number of sink clones share one atomic counter with the
 stream. The state machine interleaves the atomic steps of all of them.
 */
module DiskAdmission {
  /** Where a clone stands in `try_submit_work`. */
  datatype Clone = Idle | MustUndo

  /** `inFlight` jobs were accepted and have not been reported; `leaked` jobs were reported as failed,
      which does not lower the counter. */
  datatype State = State(counter: int, clones: seq<Clone>, inFlight: nat, leaked: nat)

  datatype Step =
    | FetchAdd(clone: nat)   // the first access of try_submit_work
    | FetchSub(clone: nat)   // the second access, after a refusal
    | Complete               // the stream reports a job that succeeded
    | Report                 // the stream reports a job that failed
    | CloneSink              // one more clone of the sink

  function CountUndo(clones: seq<Clone>): nat {
    if clones == [] then 0 else CountUndo(clones[..|clones| - 1]) + if clones[|clones| - 1].MustUndo? then 1 else 0
  }

  lemma {:induction false} CountUpdate(clones: seq<Clone>, i: nat, c: Clone)
    requires i < |clones|
    ensures CountUndo(clones[i := c])
            == CountUndo(clones) - (if clones[i].MustUndo? then 1 else 0) + (if c.MustUndo? then 1 else 0)
    decreases |clones|
  {
    var n := |clones| - 1;
    if i == n {
      assert clones[i := c][..n] == clones[..n];
    } else {
      assert clones[i := c][..n] == clones[..n][i := c];
      CountUpdate(clones[..n], i, c);
    }
  }

  predicate Enabled(s: State, step: Step) {
    match step
    case FetchAdd(i) => i < |s.clones| && s.clones[i].Idle?
    case FetchSub(i) => i < |s.clones| && s.clones[i].MustUndo?
    case Complete => s.inFlight > 0
    case Report => s.inFlight > 0
    case CloneSink => true
  }

  /** Does the step admit a job? */
  predicate Accepts(s: State, step: Step, max: nat) { step.FetchAdd? && s.counter < max }

  function Next(s: State, step: Step, max: nat): State
    requires Enabled(s, step)
  {
    match step
    case FetchAdd(i) =>
      if s.counter < max then s.(counter := s.counter + 1, inFlight := s.inFlight + 1)
      else s.(counter := s.counter + 1, clones := s.clones[i := MustUndo])
    case FetchSub(i) =>
      s.(counter := s.counter - 1, clones := s.clones[i := Idle])
    case Complete => s.(counter := s.counter - 1, inFlight := s.inFlight - 1)
    case Report => s.(inFlight := s.inFlight - 1, leaked := s.leaked + 1)
    case CloneSink => s.(clones := s.clones + [Idle])
  }

  /** The counter is the jobs in flight, the refused attempts about to undo, and the failed jobs. */
  ghost predicate Consistent(s: State) {
    s.counter == s.inFlight + CountUndo(s.clones) + s.leaked
  }

  ghost predicate Inv(s: State, max: nat) {
    Consistent(s) && s.inFlight + s.leaked <= max
  }

  lemma StepKeepsInv(s: State, step: Step, max: nat)
    requires Inv(s, max) && Enabled(s, step)
    ensures Inv(Next(s, step, max), max)
    ensures s.leaked <= Next(s, step, max).leaked
  {
    match step {
      case FetchAdd(i) => CountUpdate(s.clones, i, MustUndo);
      case FetchSub(i) => CountUpdate(s.clones, i, Idle);
      case Complete =>
      case Report =>
      case CloneSink => assert (s.clones + [Idle])[..|s.clones|] == s.clones;
    }
  }

  const START := State(0, [Idle], 0, 0)

  /** The steps can be taken one after the other from `s`. */
  ghost predicate CanRun(s: State, steps: seq<Step>, max: nat)
    decreases |steps|
  {
    steps != [] ==> Enabled(s, steps[0]) && CanRun(Next(s, steps[0], max), steps[1..], max)
  }

  function After(s: State, steps: seq<Step>, max: nat): State
    requires CanRun(s, steps, max)
    decreases |steps|
  {
    if steps == [] then s else After(Next(s, steps[0], max), steps[1..], max)
  }

  /** Some step of the run admits a job. */
  ghost predicate Admits(s: State, steps: seq<Step>, max: nat)
    requires CanRun(s, steps, max)
    decreases |steps|
  {
    steps != [] && (Accepts(s, steps[0], max) || Admits(Next(s, steps[0], max), steps[1..], max))
  }

  lemma {:induction false} RunKeepsInv(s: State, steps: seq<Step>, max: nat)
    requires Inv(s, max) && CanRun(s, steps, max)
    ensures Inv(After(s, steps, max), max) && s.leaked <= After(s, steps, max).leaked
    decreases |steps|
  {
    if steps != [] {
      StepKeepsInv(s, steps[0], max);
      RunKeepsInv(Next(s, steps[0], max), steps[1..], max);
    }
  }

  /** In every interleaving of any number of clones the jobs in flight never exceed the capacity, and
      the counter accounts for every job and every attempt. */
  lemma NeverOverCapacity(steps: seq<Step>, max: nat)
    requires CanRun(START, steps, max)
    ensures var s := After(START, steps, max);
            s.inFlight <= max && s.counter == s.inFlight + CountUndo(s.clones) + s.leaked
  {
    hide CanRun, After;
    assert CountUndo([Idle]) == 0 by { assert [Idle][..0] == []; }
    RunKeepsInv(START, steps, max);
  }

  /** When no attempt is about to undo, a submission is admitted exactly when fewer jobs than the
      capacity are in flight or have failed. */
  lemma QuiescentAdmission(s: State, i: nat, max: nat)
    requires Inv(s, max) && CountUndo(s.clones) == 0 && Enabled(s, FetchAdd(i))
    ensures Accepts(s, FetchAdd(i), max) <==> s.inFlight + s.leaked < max
  {
  }

  lemma {:induction false} ExhaustedForever(s: State, steps: seq<Step>, max: nat)
    requires Inv(s, max) && s.leaked == max && CanRun(s, steps, max)
    ensures !Admits(s, steps, max)
    decreases |steps|
  {
    if steps != [] {
      StepKeepsInv(s, steps[0], max);
      assert Next(s, steps[0], max).leaked == max;
      ExhaustedForever(Next(s, steps[0], max), steps[1..], max);
    }
  }

  lemma {:induction false} FindUndo(clones: seq<Clone>) returns (i: nat)
    requires CountUndo(clones) > 0
    ensures i < |clones| && clones[i].MustUndo?
    decreases |clones|
  {
    var n := |clones| - 1;
    if clones[n].MustUndo? {
      i := n;
    } else {
      i := FindUndo(clones[..n]);
    }
  }

  /** Letting jobs and attempts finish makes room for another job, unless too many failed. */
  lemma {:induction false} MakeRoom(s: State, max: nat) returns (steps: seq<Step>)
    requires Inv(s, max) && s.leaked < max
    ensures CanRun(s, steps, max) && Admits(s, steps, max)
    decreases s.counter
  {
    var step;
    if s.counter < max {
      step := CloneSink;
      var t := Next(s, step, max);
      steps := [FetchAdd(|s.clones|)];
      assert steps[1..] == [] && CanRun(Next(t, steps[0], max), [], max);
      assert CanRun(t, steps, max) && Admits(t, steps, max);
    } else {
      if s.inFlight > 0 {
        step := Complete;
      } else {
        var i := FindUndo(s.clones);
        step := FetchSub(i);
      }
      StepKeepsInv(s, step, max);
      steps := MakeRoom(Next(s, step, max), max);
    }
    assert ([step] + steps)[1..] == steps;
    steps := [step] + steps;
  }

  /** A run in which every job fails, until all places are lost. */
  lemma {:induction false} LoseAll(k: nat, max: nat) returns (steps: seq<Step>)
    requires k <= max
    ensures var s := State(k, [Idle], 0, k);
            CanRun(s, steps, max) && After(s, steps, max).leaked == max
    decreases max - k
  {
    if k == max {
      steps := [];
    } else {
      var rest := LoseAll(k + 1, max);
      var s := State(k, [Idle], 0, k);
      var submit := FetchAdd(0);
      var t := Next(s, submit, max);
      assert Next(t, Report, max) == State(k + 1, [Idle], 0, k + 1);
      assert ([Report] + rest)[1..] == rest && ([submit] + ([Report] + rest))[1..] == [Report] + rest;
      assert CanRun(t, [Report] + rest, max) && After(t, [Report] + rest, max).leaked == max;
      steps := [submit] + ([Report] + rest);
    }
  }

  /** So the store can be exhausted from the start. */
  lemma ExhaustedExample(max: nat) returns (steps: seq<Step>)
    ensures CanRun(START, steps, max) && After(START, steps, max).leaked == max
    ensures !exists more :: AdmittingRun(After(START, steps, max), more, max)
  {
    hide CanRun, After, Next, Enabled, Admits;
    steps := LoseAll(0, max);
    assert CountUndo([Idle]) == 0 by { assert [Idle][..0] == []; }
    RunKeepsInv(START, steps, max);
    AdmissionPossibleIff(After(START, steps, max), max);
  }

  /** A continuation of the run that admits a job. */
  ghost predicate AdmittingRun(s: State, steps: seq<Step>, max: nat) {
    CanRun(s, steps, max) && Admits(s, steps, max)
  }

  /** Failed jobs are never given back: from a reachable state some continuation admits a job if and
      only if fewer jobs than the capacity have failed so far. */
  lemma AdmissionPossibleIff(s: State, max: nat)
    requires Inv(s, max)
    ensures (exists steps :: AdmittingRun(s, steps, max)) <==> s.leaked < max
  {
    if s.leaked < max {
      var steps := MakeRoom(s, max);
      assert AdmittingRun(s, steps, max);
    } else {
      forall steps | AdmittingRun(s, steps, max)
        ensures false
      {
        ExhaustedForever(s, steps, max);
      }
    }
  }
}
