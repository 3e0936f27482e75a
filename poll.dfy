/**
 * `main` (main.cpp:156-184): starting from a delta-velocity accumulator of
 * zero, it repeats the poll cycle forever and prints the clamped distance
 * and the accumulated velocity after each cycle. Here the repetition is
 * bounded by a number of cycles and by the scripted bus replies.
 */
module Poll {
  import opened Bytes
  import opened Lidar
  import opened Bus
  import opened Driver
  import opened Machine

  /** What one iteration of `main` prints: the clamped distance and the accumulated velocity. */
  datatype Report = Report(distance: Uint16, velocity: Int8)

  /** The report a cycle's outcome leads to, given the accumulator before the cycle. */
  function ReportOf(outcome: Res<Reading>, velocity: Int8): (r: Res<Report>)
    ensures r.Done? <==> outcome.Done?
    ensures !r.Done? ==> r.Died? == outcome.Died? && (r.Died? ==> r.error == outcome.error)
    ensures r.Done? ==> r.value.distance == outcome.value.distance
    ensures r.Done? ==> (r.value.velocity - (velocity + outcome.value.delta)) % 0x100 == 0
  {
    if outcome.Done? then Done(Report(outcome.value.distance, Int8Of(velocity + outcome.value.delta)))
    else outcome.Abort()
  }

  /**
   * WAIT_BUSY: read the status, and read it again for as long as it reports
   * busy (a do-while). `ts` is the transactions it issued; the cycle machine
   * started at the status poll issues the same ones and goes on to READ
   * exactly when this returns an idle status.
   */
  method WaitReady(bus: I2C) returns (status: Res<LidarStatus>, ghost ts: seq<Txn>)
    modifies bus
    ensures Advanced(old(bus.log), old(bus.replies), bus.log, bus.replies, ts)
    ensures status.Done? ==> status.value.busy == 0
    ensures Cycle(SelectingStatus, old(bus.replies)) ==
      if status.Done? then Prepend(ts, Cycle(SelectingDistance, bus.replies)) else Run(ts, status.Abort())
  {
    ghost var log0, rs0 := bus.log, bus.replies;
    ghost var log1, rs1 := bus.log, bus.replies;
    status := ReadStatus(bus);
    StatusStep(rs1);
    ts := StatusExchange(rs1).log;
    while status.Done? && status.value.busy != 0
      invariant Advanced(log0, rs0, bus.log, bus.replies, ts)
      invariant Cycle(SelectingStatus, rs0) ==
        if status.Done? then Prepend(ts, Cycle(if status.value.busy != 0 then SelectingStatus else SelectingDistance, bus.replies))
        else Run(ts, status.Abort())
      decreases |bus.replies| + (if status.Done? then 1 else 0)
    {
      log1, rs1 := bus.log, bus.replies;
      status := ReadStatus(bus);
      StatusStep(rs1);
      AdvancedTwice(log0, rs0, log1, rs1, ts, bus.log, bus.replies, StatusExchange(rs1).log);
      PrependTwice(ts, StatusExchange(rs1).log, Cycle(if status.Done? && status.value.busy != 0 then SelectingStatus else SelectingDistance, bus.replies));
      ts := ts + StatusExchange(rs1).log;
    }
  }

  /** READ: the distance, saturated at 9999, then the delta velocity. */
  method ReadPhase(bus: I2C) returns (res: Res<Reading>)
    modifies bus
    ensures var run := Cycle(SelectingDistance, old(bus.replies));
      && Advanced(old(bus.log), old(bus.replies), bus.log, bus.replies, run.log)
      && res == run.outcome
  {
    ghost var log0, rs0 := bus.log, bus.replies;
    var distance := ReadDistance(bus);
    DistanceStep(rs0);
    var x := DistanceExchange(rs0);
    if !distance.Done? {
      return distance.Abort();
    }
    var lidarDistance := distance.value;
    if lidarDistance >= 9999 {
      lidarDistance := 9999;
    }
    assert lidarDistance == Clamp(Reassemble(x.res.value[0], x.res.value[1]));
    ghost var log1, rs1 := bus.log, bus.replies;
    assert Cycle(SelectingDistance, rs0) == Prepend(x.log, Cycle(SelectingVelocity(lidarDistance), rs1));
    var delta := ReadDeltaVelocity(bus);
    VelocityStep(lidarDistance, rs1);
    AdvancedTwice(log0, rs0, log1, rs1, x.log, bus.log, bus.replies, DeltaVelocityExchange(rs1).log);
    if !delta.Done? {
      return delta.Abort();
    }
    res := Done(Reading(lidarDistance, delta.value));
  }

  /**
   * The body of `main`'s loop: ACQUIRE, WAIT_BUSY, READ, then the
   * accumulation into the `int8_t` velocity and the report. It does what the
   * cycle machine does on the same replies.
   */
  method PollCycle(bus: I2C, velocity: Int8) returns (res: Res<Report>)
    modifies bus
    ensures var run := Cycle(Acquiring, old(bus.replies));
      && Advanced(old(bus.log), old(bus.replies), bus.log, bus.replies, run.log)
      && res == ReportOf(run.outcome, velocity)
  {
    ghost var log0, rs0 := bus.log, bus.replies;
    var acq := WriteAcqCmd(bus);
    AcquireStep(rs0);
    if !acq.Done? {
      return acq.Abort();
    }
    ghost var ts := AcqCmdExchange(rs0).log;

    ghost var log1, rs1 := bus.log, bus.replies;
    var status, ws := WaitReady(bus);
    AdvancedTwice(log0, rs0, log1, rs1, ts, bus.log, bus.replies, ws);
    if !status.Done? {
      return status.Abort();
    }
    PrependTwice(ts, ws, Cycle(SelectingDistance, bus.replies));
    ts := ts + ws;

    ghost var log2, rs2 := bus.log, bus.replies;
    var reading := ReadPhase(bus);
    AdvancedTwice(log0, rs0, log2, rs2, ts, bus.log, bus.replies, Cycle(SelectingDistance, rs2).log);
    if !reading.Done? {
      return reading.Abort();
    }
    res := Done(Report(reading.value.distance, Int8Of(velocity + reading.value.delta)));
  }

  /** What a run of `main` printed, the deltas it read, the transactions it sent and how it stopped. */
  datatype Transcript = Transcript(reports: seq<Report>, deltas: seq<Int8>, log: seq<Txn>, stop: Res<()>)

  /**
   * `n` iterations of `main`'s loop from the accumulator `v` against the
   * replies `rs`: every completed cycle adds its delta to the accumulator
   * and prints a report; a cycle that dies, or runs out of replies, ends the
   * run with no report for it.
   */
  function Session(n: nat, v: Int8, rs: seq<Reply>): (s: Transcript)
    ensures |s.reports| == |s.deltas| <= n
    ensures s.stop.Done? <==> |s.reports| == n
    ensures |s.log| <= |rs|
    ensures s.stop.Died? ==> |s.log| >= 1
    ensures forall i :: 0 <= i < |s.reports| ==> s.reports[i].distance <= MaxDistance
    decreases n
  {
    if n == 0 then Transcript([], [], [], Done(()))
    else
      var run := Cycle(Acquiring, rs);
      if run.outcome.Done? then
        ReadingSaturated(rs);
        var reading := run.outcome.value;
        var v' := Int8Of(v + reading.delta);
        var rest := Session(n - 1, v', rs[|run.log|..]);
        Transcript([Report(reading.distance, v')] + rest.reports, [reading.delta] + rest.deltas,
                   run.log + rest.log, rest.stop)
      else Transcript([], [], run.log, run.outcome.Abort())
  }

  /** A transcript so far, followed by the transcript of the rest of the run. */
  function Then(reports: seq<Report>, deltas: seq<Int8>, log: seq<Txn>, rest: Transcript): Transcript
  {
    Transcript(reports + rest.reports, deltas + rest.deltas, log + rest.log, rest.stop)
  }

  /**
   * `main`, for at most `cycles` iterations: the accumulator starts at zero,
   * each completed cycle prints a report, and the first failure stops the
   * run. It does what `Session` describes.
   */
  method PollLoop(bus: I2C, cycles: nat) returns (reports: seq<Report>, stop: Res<()>)
    modifies bus
    ensures var s := Session(cycles, 0, old(bus.replies));
      && Advanced(old(bus.log), old(bus.replies), bus.log, bus.replies, s.log)
      && reports == s.reports && stop == s.stop
  {
    ghost var log0, rs0 := bus.log, bus.replies;
    ghost var ts: seq<Txn> := [];
    ghost var deltas: seq<Int8> := [];
    var velocity: Int8 := 0;
    reports := [];
    var n := 0;
    while n < cycles
      invariant n <= cycles
      invariant Advanced(log0, rs0, bus.log, bus.replies, ts)
      invariant Session(cycles, 0, rs0) == Then(reports, deltas, ts, Session(cycles - n, velocity, bus.replies))
    {
      ghost var log1, rs1 := bus.log, bus.replies;
      ghost var run := Cycle(Acquiring, rs1);
      var res := PollCycle(bus, velocity);
      SessionStep(cycles - n, velocity, rs1);
      AdvancedTwice(log0, rs0, log1, rs1, ts, bus.log, bus.replies, run.log);
      if !res.Done? {
        ThenStop(reports, deltas, ts, run.log, res.Abort());
        return reports, res.Abort();
      }
      ThenCycle(reports, deltas, ts, res.value, run.outcome.value.delta, run.log, Session(cycles - n - 1, res.value.velocity, bus.replies));
      velocity := res.value.velocity;
      reports := reports + [res.value];
      deltas := deltas + [run.outcome.value.delta];
      ts := ts + run.log;
      n := n + 1;
    }
    stop := Done(());
  }

  /** One more iteration of the session, in terms of the report its cycle leads to. */
  lemma SessionStep(n: nat, v: Int8, rs: seq<Reply>)
    requires n > 0
    ensures var run := Cycle(Acquiring, rs); var r := ReportOf(run.outcome, v);
      Session(n, v, rs) ==
        if r.Done? then
          var rest := Session(n - 1, r.value.velocity, rs[|run.log|..]);
          Transcript([r.value] + rest.reports, [run.outcome.value.delta] + rest.deltas, run.log + rest.log, rest.stop)
        else Transcript([], [], run.log, r.Abort())
  {
  }

  lemma ThenStop(reports: seq<Report>, deltas: seq<Int8>, log: seq<Txn>, more: seq<Txn>, stop: Res<()>)
    ensures Then(reports, deltas, log, Transcript([], [], more, stop)) == Transcript(reports, deltas, log + more, stop)
  {
    assert reports + [] == reports && deltas + [] == deltas;
  }

  lemma ThenCycle(reports: seq<Report>, deltas: seq<Int8>, log: seq<Txn>, r: Report, d: Int8, more: seq<Txn>, rest: Transcript)
    ensures Then(reports, deltas, log, Transcript([r] + rest.reports, [d] + rest.deltas, more + rest.log, rest.stop)) ==
      Then(reports + [r], deltas + [d], log + more, rest)
  {
    assert reports + ([r] + rest.reports) == (reports + [r]) + rest.reports;
    assert deltas + ([d] + rest.deltas) == (deltas + [d]) + rest.deltas;
    assert log + (more + rest.log) == (log + more) + rest.log;
  }

  /** The sum of the deltas, as unbounded integers. */
  function Sum(ds: seq<Int8>): int
  {
    if ds == [] then 0 else ds[0] + Sum(ds[1..])
  }

  /**
   * The accumulator after adding the deltas `ds` to `v` in order, each sum
   * stored back into an `int8_t`. Wrapping after every addition is wrapping
   * once at the end: the accumulator is `v` plus the sum, modulo 256.
   */
  function Accumulate(v: Int8, ds: seq<Int8>): (r: Int8)
    ensures r == Int8Of(v + Sum(ds))
    decreases |ds|
  {
    if ds == [] then v
    else
      Int8OfAbsorbs(v + ds[0], Sum(ds[1..]));
      Accumulate(Int8Of(v + ds[0]), ds[1..])
  }

  /** Deltas 5, -3 and 10 leave the accumulator at 12; 127 then 1 wraps it to -128. */
  lemma AccumulateExamples()
    ensures Accumulate(0, [5, -3, 10]) == 12
    ensures Accumulate(0, [127, 1]) == -128
  {
    assert Sum([5, -3, 10]) == 12 && Sum([127, 1]) == 128;
  }

  /**
   * Reports whose velocities step from `v` by the deltas: each one is the
   * previous velocity (the first time, `v`) plus its delta, wrapped to an
   * `int8_t`.
   */
  predicate Steps(v: Int8, reports: seq<Report>, deltas: seq<Int8>)
  {
    && |reports| == |deltas|
    && (|reports| > 0 ==> reports[0].velocity == Int8Of(v + deltas[0]))
    && forall i :: 1 <= i < |reports| ==> reports[i].velocity == Int8Of(reports[i - 1].velocity + deltas[i])
  }

  lemma StepsCons(v: Int8, s: Transcript, r: Report, d: Int8, rest: Transcript)
    requires s.reports == [r] + rest.reports && s.deltas == [d] + rest.deltas
    requires r.velocity == Int8Of(v + d) && Steps(r.velocity, rest.reports, rest.deltas)
    ensures Steps(v, s.reports, s.deltas)
  {
    var rs', ds' := s.reports, s.deltas;
    forall i | 1 <= i < |rs'|
      ensures rs'[i].velocity == Int8Of(rs'[i - 1].velocity + ds'[i])
    {
      assert rs'[i] == rest.reports[i - 1] && ds'[i] == rest.deltas[i - 1];
      if i == 1 {
        assert rs'[0] == r;
      } else {
        assert rs'[i - 1] == rest.reports[i - 2];
      }
    }
  }

  /** The accumulator after one more delta. */
  lemma {:induction false} AccumulateSnoc(v: Int8, ds: seq<Int8>, d: Int8)
    ensures Accumulate(v, ds + [d]) == Int8Of(Accumulate(v, ds) + d)
    decreases |ds|
  {
    if ds == [] {
      assert ds + [d] == [d];
    } else {
      assert (ds + [d])[1..] == ds[1..] + [d];
      AccumulateSnoc(Int8Of(v + ds[0]), ds[1..], d);
    }
  }

  /** Stepping from `v` is accumulating from `v`: each velocity is `v` plus the deltas up to it. */
  lemma {:induction false} StepsAccumulate(v: Int8, reports: seq<Report>, deltas: seq<Int8>, i: nat)
    requires Steps(v, reports, deltas) && i < |reports|
    ensures reports[i].velocity == Accumulate(v, deltas[..i + 1])
    decreases i
  {
    if i == 0 {
      assert deltas[..1] == [deltas[0]];
      assert Accumulate(v, [deltas[0]]) == Accumulate(Int8Of(v + deltas[0]), []);
    } else {
      StepsAccumulate(v, reports, deltas, i - 1);
      assert deltas[..i + 1] == deltas[..i] + [deltas[i]];
      AccumulateSnoc(v, deltas[..i], deltas[i]);
    }
  }

  /**
   * The velocity in the `i`-th report is the previous one (at the start,
   * the initial accumulator) plus the `i`-th cycle's delta, wrapped to an
   * `int8_t`: the accumulator changes exactly once per completed cycle.
   */
  lemma {:induction false} SessionSteps(n: nat, v: Int8, rs: seq<Reply>)
    ensures var s := Session(n, v, rs); Steps(v, s.reports, s.deltas)
    decreases n
  {
    if n > 0 && Cycle(Acquiring, rs).outcome.Done? {
      var run := Cycle(Acquiring, rs);
      var v' := Int8Of(v + run.outcome.value.delta);
      var rest := Session(n - 1, v', rs[|run.log|..]);
      SessionSteps(n - 1, v', rs[|run.log|..]);
      StepsCons(v, Session(n, v, rs), Report(run.outcome.value.distance, v'), run.outcome.value.delta, rest);
    }
  }

  /**
   * `main`'s velocity: the `i`-th report carries the sum of the first
   * `i + 1` deltas, added one by one to an accumulator starting at zero and
   * wrapped to an `int8_t` each time, which is the sum modulo 256.
   */
  lemma VelocityIsWrappedSum(cycles: nat, rs: seq<Reply>)
    ensures var s := Session(cycles, 0, rs);
      forall i :: 0 <= i < |s.reports| ==>
        && s.reports[i].velocity == Accumulate(0, s.deltas[..i + 1])
        && s.reports[i].velocity == Int8Of(Sum(s.deltas[..i + 1]))
  {
    var s := Session(cycles, 0, rs);
    SessionSteps(cycles, 0, rs);
    forall i | 0 <= i < |s.reports|
      ensures s.reports[i].velocity == Accumulate(0, s.deltas[..i + 1])
      ensures s.reports[i].velocity == Int8Of(Sum(s.deltas[..i + 1]))
    {
      StepsAccumulate(0, s.reports, s.deltas, i);
    }
  }

  /**
   * Transaction `i` of a run of `main` goes to the sensor, and it succeeded
   * unless the run died and it is the last one.
   */
  lemma {:induction false} SessionAnswerAt(n: nat, v: Int8, rs: seq<Reply>, i: nat)
    requires i < |Session(n, v, rs).log|
    ensures var s := Session(n, v, rs);
      && s.log[i].addr == LidarAddr
      && (Answer(s.log[i], rs[i]).Acked? <==> !(s.stop.Died? && i == |s.log| - 1))
    decreases n
  {
    var s := Session(n, v, rs);
    var run := Cycle(Acquiring, rs);
    if i < |run.log| {
      CycleAnswerAt(Acquiring, rs, i);
      assert s.log[i] == run.log[i];
    } else {
      var v' := Int8Of(v + run.outcome.value.delta);
      var rest := Session(n - 1, v', rs[|run.log|..]);
      SessionAnswerAt(n - 1, v', rs[|run.log|..], i - |run.log|);
      assert s.log[i] == rest.log[i - |run.log|] && rs[i] == rs[|run.log|..][i - |run.log|];
    }
  }

  /**
   * Every transaction of a run of `main` goes to the sensor and succeeded,
   * except, when the run died, the last: after a failure nothing more is
   * sent, read, accumulated or reported.
   */
  lemma SessionAnswers(n: nat, v: Int8, rs: seq<Reply>)
    ensures var s := Session(n, v, rs);
      forall i :: 0 <= i < |s.log| ==>
        && s.log[i].addr == LidarAddr
        && (Answer(s.log[i], rs[i]).Acked? <==> !(s.stop.Died? && i == |s.log| - 1))
  {
    forall i | 0 <= i < |Session(n, v, rs).log| {
      SessionAnswerAt(n, v, rs, i);
    }
  }
}
