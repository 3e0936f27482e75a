/**
 * One poll cycle of `main` (main.cpp:160-179) as a state machine over the
 * scripted bus replies: ACQUIRE, then WAIT_BUSY (re-reading the status
 * until it is not busy), then READ (distance, then delta velocity). The
 * three states are split into seven `Phase`s, one per bus transaction:
 * ACQUIRE is one write, each WAIT_BUSY poll a select and a read, and READ
 * two selects and two reads. Each phase issues its transaction and
 * consumes one reply. This is the reference the imperative cycle in module
 * Poll is proved against.
 */
module Machine {
  import opened Bytes
  import opened Lidar
  import opened Bus
  import opened Driver

  /** The values one completed cycle reads: the clamped distance and the delta velocity. */
  datatype Reading = Reading(distance: Uint16, delta: Int8)

  datatype Phase =
    | Acquiring                          // write the acquire command
    | SelectingStatus                    // WAIT_BUSY: select the status register
    | ReadingStatus                      // WAIT_BUSY: read the status byte
    | SelectingDistance                  // READ: select the distance registers
    | ReadingDistance                    // READ: read the two distance bytes
    | SelectingVelocity(distance: Uint16)  // READ: select the delta-velocity register
    | ReadingVelocity(distance: Uint16)    // READ: read the delta-velocity byte

  const AcquireTxn := Write(LidarAddr, [AcqCmdReg, AcqCmd])
  const SelectStatusTxn := Write(LidarAddr, [StatusReg])
  const ReadStatusTxn := Read(LidarAddr, 1)
  const SelectDistanceTxn := Write(LidarAddr, [DistReg])
  const ReadDistanceTxn := Read(LidarAddr, 2)
  const SelectVelocityTxn := Write(LidarAddr, [DeltaVelocityReg])
  const ReadVelocityTxn := Read(LidarAddr, 1)

  /** The transaction each phase issues. */
  function Issued(p: Phase): Txn
  {
    match p
    case Acquiring => AcquireTxn
    case SelectingStatus => SelectStatusTxn
    case ReadingStatus => ReadStatusTxn
    case SelectingDistance => SelectDistanceTxn
    case ReadingDistance => ReadDistanceTxn
    case SelectingVelocity(_) => SelectVelocityTxn
    case ReadingVelocity(_) => ReadVelocityTxn
  }

  /** The error each phase dies with when its transaction fails. */
  function ErrorOf(p: Phase): Error
  {
    match p
    case Acquiring => WriteAcqCmdFailed
    case SelectingStatus => SelectStatusFailed
    case ReadingStatus => ReadStatusFailed
    case SelectingDistance => SelectDistanceFailed
    case ReadingDistance => ReadDistanceFailed
    case SelectingVelocity(_) => SelectDeltaVelocityFailed
    case ReadingVelocity(_) => ReadDeltaVelocityFailed
  }

  /** A status reply that delivered one byte reporting busy, or reporting idle. */
  predicate Busy(r: Reply)
  {
    |r.data| == 1 && DecodeStatus(r.data[0]).busy != 0
  }

  predicate Idle(r: Reply)
  {
    |r.data| == 1 && DecodeStatus(r.data[0]).busy == 0
  }

  datatype Step = Next(phase: Phase) | Finish(reading: Reading) | Fail(error: Error)

  /**
   * What a phase does with the reply to its transaction: a failed
   * transaction dies with that phase's error, the delta-velocity read
   * finishes the cycle, and every other phase moves on.
   */
  function Advance(p: Phase, r: Reply): (s: Step)
    ensures s.Fail? <==> !Answer(Issued(p), r).Acked?
    ensures s.Fail? ==> s.error == ErrorOf(p)
    ensures s.Finish? <==> p.ReadingVelocity? && Answer(Issued(p), r).Acked?
    ensures s.Finish? ==> s.reading.distance == p.distance
  {
    var x := Answer(Issued(p), r);
    if !x.Acked? then Fail(ErrorOf(p))
    else match p
      case Acquiring => Next(SelectingStatus)
      case SelectingStatus => Next(ReadingStatus)
      case ReadingStatus =>
        if DecodeStatus(x.data[0]).busy != 0 then Next(SelectingStatus) else Next(SelectingDistance)
      case SelectingDistance => Next(ReadingDistance)
      case ReadingDistance => Next(SelectingVelocity(Clamp(Reassemble(x.data[0], x.data[1]))))
      case SelectingVelocity(d) => Next(ReadingVelocity(d))
      case ReadingVelocity(d) => Finish(Reading(d, DecodeDeltaVelocity(x.data[0])))
  }

  /** The transactions a run issued, and how it ended. */
  datatype Run = Run(log: seq<Txn>, outcome: Res<Reading>)

  function Prepend(ts: seq<Txn>, run: Run): Run
  {
    Run(ts + run.log, run.outcome)
  }

  lemma PrependTwice(a: seq<Txn>, b: seq<Txn>, run: Run)
    ensures Prepend(a, Prepend(b, run)) == Prepend(a + b, run)
  {
    assert a + (b + run.log) == (a + b) + run.log;
  }

  /**
   * Running the cycle from phase `p` against the replies `rs`. Each
   * transaction consumes one reply; the run stops when a transaction
   * fails, when the velocity is read, or when the replies run out.
   */
  function Cycle(p: Phase, rs: seq<Reply>): (run: Run)
    ensures |run.log| <= |rs|
    ensures run.outcome.OutOfScript? ==> |run.log| == |rs|
    ensures !run.outcome.OutOfScript? ==> |run.log| >= 1
    decreases |rs|
  {
    if rs == [] then Run([], OutOfScript)
    else match Advance(p, rs[0])
      case Next(q) => Prepend([Issued(p)], Cycle(q, rs[1..]))
      case Finish(reading) => Run([Issued(p)], Done(reading))
      case Fail(e) => Run([Issued(p)], Died(e))
  }

  /*
   * The driver operations are runs of the machine: each lemma below says
   * that the phases an operation covers issue the same transactions and
   * end the same way as the operation's exchange.
   */

  lemma AcquireStep(rs: seq<Reply>)
    ensures var x := AcqCmdExchange(rs);
      Cycle(Acquiring, rs) ==
        if x.res.Done? then Prepend(x.log, Cycle(SelectingStatus, rs[1..]))
        else Run(x.log, x.res.Abort())
  {
  }

  /** A phase whose transaction succeeded without finishing the cycle hands over to the next phase. */
  lemma CycleNext(p: Phase, rs: seq<Reply>)
    requires rs != [] && Advance(p, rs[0]).Next?
    ensures Cycle(p, rs) == Prepend([Issued(p)], Cycle(Advance(p, rs[0]).phase, rs[1..]))
  {
  }

  /** The status read hands over to another status poll when busy, to the distance read when idle. */
  lemma StatusReadPhase(rs: seq<Reply>)
    requires rs != []
    ensures var y := Answer(ReadStatusTxn, rs[0]);
      Cycle(ReadingStatus, rs) ==
        if !y.Acked? then Run([ReadStatusTxn], Died(ReadStatusFailed))
        else Prepend([ReadStatusTxn], Cycle(if DecodeStatus(y.data[0]).busy != 0 then SelectingStatus else SelectingDistance, rs[1..]))
  {
  }

  lemma StatusStep(rs: seq<Reply>)
    ensures var x := StatusExchange(rs);
      Cycle(SelectingStatus, rs) ==
        if x.res.Done? then
          Prepend(x.log, Cycle(if DecodeStatus(x.res.value[0]).busy != 0 then SelectingStatus else SelectingDistance, rs[2..]))
        else Run(x.log, x.res.Abort())
  {
    if |rs| >= 2 && rs[0].code == 0 && rs[1].code == 0 && |rs[1].data| == 1 {
      StatusPolled(rs);
    } else {
      StatusNotPolled(rs);
    }
  }

  lemma StatusExchangeDone(rs: seq<Reply>)
    requires |rs| >= 2 && rs[0].code == 0 && rs[1].code == 0 && |rs[1].data| == 1
    ensures StatusExchange(rs) == Exchange(Done(rs[1].data), [SelectStatusTxn, ReadStatusTxn])
  {
  }

  lemma StatusPolled(rs: seq<Reply>)
    requires |rs| >= 2 && rs[0].code == 0 && rs[1].code == 0 && |rs[1].data| == 1
    ensures StatusExchange(rs) == Exchange(Done(rs[1].data), [SelectStatusTxn, ReadStatusTxn])
    ensures Cycle(SelectingStatus, rs) ==
      Prepend([SelectStatusTxn, ReadStatusTxn], Cycle(if DecodeStatus(rs[1].data[0]).busy != 0 then SelectingStatus else SelectingDistance, rs[2..]))
  {
    StatusExchangeDone(rs);
    CycleNext(SelectingStatus, rs);
    StatusReadPhase(rs[1..]);
    assert rs[1..][1..] == rs[2..];
    var next := if DecodeStatus(rs[1].data[0]).busy != 0 then SelectingStatus else SelectingDistance;
    PrependTwice([SelectStatusTxn], [ReadStatusTxn], Cycle(next, rs[2..]));
  }

  lemma StatusNotPolled(rs: seq<Reply>)
    requires !(|rs| >= 2 && rs[0].code == 0 && rs[1].code == 0 && |rs[1].data| == 1)
    ensures var x := StatusExchange(rs);
      !x.res.Done? && Cycle(SelectingStatus, rs) == Run(x.log, x.res.Abort())
  {
    if rs != [] && Answer(SelectStatusTxn, rs[0]).Acked? {
      CycleNext(SelectingStatus, rs);
      if |rs| >= 2 {
        StatusReadPhase(rs[1..]);
      }
    }
  }

  /** The distance read hands over to the velocity read with the clamped distance. */
  lemma DistanceReadPhase(rs: seq<Reply>)
    requires rs != []
    ensures var y := Answer(ReadDistanceTxn, rs[0]);
      Cycle(ReadingDistance, rs) ==
        if !y.Acked? then Run([ReadDistanceTxn], Died(ReadDistanceFailed))
        else Prepend([ReadDistanceTxn], Cycle(SelectingVelocity(Clamp(Reassemble(y.data[0], y.data[1]))), rs[1..]))
  {
  }

  lemma DistanceStep(rs: seq<Reply>)
    ensures var x := DistanceExchange(rs);
      Cycle(SelectingDistance, rs) ==
        if x.res.Done? then
          Prepend(x.log, Cycle(SelectingVelocity(Clamp(Reassemble(x.res.value[0], x.res.value[1]))), rs[2..]))
        else Run(x.log, x.res.Abort())
  {
    if |rs| >= 2 && rs[0].code == 0 && rs[1].code == 0 && |rs[1].data| == 2 {
      DistanceRead(rs);
    } else {
      DistanceNotRead(rs);
    }
  }

  lemma DistanceRead(rs: seq<Reply>)
    requires |rs| >= 2 && rs[0].code == 0 && rs[1].code == 0 && |rs[1].data| == 2
    ensures DistanceExchange(rs) == Exchange(Done(rs[1].data), [SelectDistanceTxn, ReadDistanceTxn])
    ensures Cycle(SelectingDistance, rs) ==
      Prepend([SelectDistanceTxn, ReadDistanceTxn], Cycle(SelectingVelocity(Clamp(Reassemble(rs[1].data[0], rs[1].data[1]))), rs[2..]))
  {
    var rest := Cycle(SelectingVelocity(Clamp(Reassemble(rs[1].data[0], rs[1].data[1]))), rs[2..]);
    assert rs[1..][1..] == rs[2..];
    assert [SelectDistanceTxn] + ([ReadDistanceTxn] + rest.log) == [SelectDistanceTxn, ReadDistanceTxn] + rest.log;
  }

  lemma DistanceNotRead(rs: seq<Reply>)
    requires !(|rs| >= 2 && rs[0].code == 0 && rs[1].code == 0 && |rs[1].data| == 2)
    ensures var x := DistanceExchange(rs);
      !x.res.Done? && Cycle(SelectingDistance, rs) == Run(x.log, x.res.Abort())
  {
    if rs != [] && Answer(SelectDistanceTxn, rs[0]).Acked? {
      CycleNext(SelectingDistance, rs);
      if |rs| >= 2 {
        DistanceReadPhase(rs[1..]);
      }
    }
  }

  lemma VelocityStep(d: Uint16, rs: seq<Reply>)
    ensures var x := DeltaVelocityExchange(rs);
      Cycle(SelectingVelocity(d), rs) ==
        if x.res.Done? then Run(x.log, Done(Reading(d, DecodeDeltaVelocity(x.res.value[0]))))
        else Run(x.log, x.res.Abort())
  {
  }

  /*
   * What one cycle does on the bus, for every reply script.
   */

  /** A cycle begins with the acquire command `{0x00, 0x04}`, before any other transaction. */
  lemma AcquireFirst(rs: seq<Reply>)
    requires rs != []
    ensures Cycle(Acquiring, rs).log[0] == AcquireTxn
  {
  }

  /** Only an idle status read leads to the distance read. */
  lemma IntoSelectingDistance(p: Phase, r: Reply)
    requires Advance(p, r) == Next(SelectingDistance)
    ensures p == ReadingStatus && Idle(r)
  {
  }

  /** Only selecting the status register leads to reading it. */
  lemma IntoReadingStatus(p: Phase, r: Reply)
    requires Advance(p, r) == Next(ReadingStatus)
    ensures p == SelectingStatus
  {
  }

  /** A status read that succeeded goes back to polling when busy and on to the distance when idle. */
  lemma AfterStatusRead(r: Reply)
    requires Advance(ReadingStatus, r).Next?
    ensures Advance(ReadingStatus, r).phase == SelectingStatus <==> Busy(r)
    ensures Advance(ReadingStatus, r).phase == SelectingDistance <==> Idle(r)
  {
  }

  /**
   * The first transaction of a run is the one its phase issues; a run that
   * goes on past it handed over to the next phase.
   */
  lemma CycleHead(p: Phase, rs: seq<Reply>)
    requires |Cycle(p, rs).log| >= 1
    ensures rs != [] && Cycle(p, rs).log[0] == Issued(p)
    ensures |Cycle(p, rs).log| >= 2 ==>
      && Advance(p, rs[0]).Next?
      && Cycle(p, rs) == Prepend([Issued(p)], Cycle(Advance(p, rs[0]).phase, rs[1..]))
  {
  }

  /**
   * Transaction `i` of a run goes to the sensor's address, and it succeeded
   * unless the run died and it is the last one.
   */
  lemma {:induction false} CycleAnswerAt(p: Phase, rs: seq<Reply>, i: nat)
    requires i < |Cycle(p, rs).log|
    ensures var run := Cycle(p, rs);
      && run.log[i].addr == LidarAddr
      && (Answer(run.log[i], rs[i]).Acked? <==> !(run.outcome.Died? && i == |run.log| - 1))
    decreases i
  {
    CycleHead(p, rs);
    var run := Cycle(p, rs);
    if |run.log| >= 2 {
      var rest := Cycle(Advance(p, rs[0]).phase, rs[1..]);
      if i >= 1 {
        CycleAnswerAt(Advance(p, rs[0]).phase, rs[1..], i - 1);
        assert run.log[i] == rest.log[i - 1] && rs[i] == rs[1..][i - 1];
      }
    }
  }

  /**
   * Every transaction of a run goes to the sensor's address, and every one
   * of them succeeded except, when the run died, the last: a failed
   * transaction ends the run at once.
   */
  lemma CycleAnswers(p: Phase, rs: seq<Reply>)
    ensures var run := Cycle(p, rs);
      forall i :: 0 <= i < |run.log| ==>
        && run.log[i].addr == LidarAddr
        && (Answer(run.log[i], rs[i]).Acked? <==> !(run.outcome.Died? && i == |run.log| - 1))
  {
    forall i | 0 <= i < |Cycle(p, rs).log| {
      CycleAnswerAt(p, rs, i);
    }
  }

  /**
   * Wherever a run selects the distance registers, the two transactions
   * before it polled the status and the status byte reported idle; at the
   * start of a run, the phase it starts from accounts for the missing ones.
   */
  lemma {:induction false} DistanceAfterIdleAt(p: Phase, rs: seq<Reply>, i: nat)
    requires i < |Cycle(p, rs).log| && Cycle(p, rs).log[i] == SelectDistanceTxn
    ensures i == 0 ==> p == SelectingDistance
    ensures i == 1 ==> p == ReadingStatus && Idle(rs[0])
    ensures i >= 2 ==> var log := Cycle(p, rs).log;
      log[i - 2] == SelectStatusTxn && log[i - 1] == ReadStatusTxn && Idle(rs[i - 1])
    decreases i
  {
    CycleHead(p, rs);
    if i >= 1 {
      var log := Cycle(p, rs).log;
      var q := Advance(p, rs[0]).phase;
      var rest := Cycle(q, rs[1..]);
      assert log[i] == rest.log[i - 1];
      DistanceAfterIdleAt(q, rs[1..], i - 1);
      if i == 1 {
        IntoSelectingDistance(p, rs[0]);
      } else if i == 2 {
        IntoReadingStatus(p, rs[0]);
        assert rs[1] == rs[1..][0];
      } else {
        assert log[i - 2] == rest.log[i - 3] && log[i - 1] == rest.log[i - 2] && rs[i - 1] == rs[1..][i - 2];
      }
    }
  }

  /** The distance registers are selected only right after a status read that reported idle. */
  lemma DistanceOnlyAfterIdle(rs: seq<Reply>)
    ensures var log := Cycle(Acquiring, rs).log;
      forall i :: 0 <= i < |log| && log[i] == SelectDistanceTxn ==>
        2 <= i && log[i - 2] == SelectStatusTxn && log[i - 1] == ReadStatusTxn && Idle(rs[i - 1])
  {
    var log := Cycle(Acquiring, rs).log;
    forall i | 0 <= i < |log| && log[i] == SelectDistanceTxn
      ensures 2 <= i && log[i - 2] == SelectStatusTxn && log[i - 1] == ReadStatusTxn && Idle(rs[i - 1])
    {
      DistanceAfterIdleAt(Acquiring, rs, i);
    }
  }

  /**
   * WAIT_BUSY at position `i`: the status read follows its select, and the
   * transaction after it is another poll when the byte reported busy and the
   * distance read when it reported idle.
   */
  lemma {:induction false} BusyRepollsAt(p: Phase, rs: seq<Reply>, i: nat)
    requires i + 1 < |Cycle(p, rs).log| && Cycle(p, rs).log[i] == SelectStatusTxn
    ensures var log := Cycle(p, rs).log;
      && log[i + 1] == ReadStatusTxn
      && (i + 2 < |log| ==>
        && (log[i + 2] == SelectStatusTxn <==> Busy(rs[i + 1]))
        && (log[i + 2] == SelectDistanceTxn <==> Idle(rs[i + 1])))
    decreases i
  {
    CycleHead(p, rs);
    var log := Cycle(p, rs).log;
    var q := Advance(p, rs[0]).phase;
    var rest := Cycle(q, rs[1..]);
    if i == 0 {
      assert p == SelectingStatus && q == ReadingStatus;
      CycleHead(q, rs[1..]);
      if 2 < |log| {
        var q2 := Advance(q, rs[1..][0]).phase;
        CycleHead(q2, rs[1..][1..]);
        assert rs[1..][0] == rs[1];
        AfterStatusRead(rs[1]);
        assert log[2] == Issued(q2);
      }
    } else {
      BusyRepollsAt(q, rs[1..], i - 1);
      assert log[i + 1] == rest.log[i];
      if i + 2 < |log| {
        assert log[i + 2] == rest.log[i + 1];
        assert rs[i + 1] == rs[1..][i];
      }
    }
  }

  /**
   * WAIT_BUSY: every status select is followed by the status read; a poll
   * that reports busy is followed by another status poll, and one that
   * reports idle by the distance read.
   */
  lemma BusyRepolls(p: Phase, rs: seq<Reply>)
    ensures var log := Cycle(p, rs).log;
      forall i :: 0 <= i && i + 1 < |log| && log[i] == SelectStatusTxn ==>
        && log[i + 1] == ReadStatusTxn
        && (i + 2 < |log| ==>
          && (log[i + 2] == SelectStatusTxn <==> Busy(rs[i + 1]))
          && (log[i + 2] == SelectDistanceTxn <==> Idle(rs[i + 1])))
  {
    var log := Cycle(p, rs).log;
    forall i | 0 <= i && i + 1 < |log| && log[i] == SelectStatusTxn
      ensures log[i + 1] == ReadStatusTxn
      ensures i + 2 < |log| ==>
        && (log[i + 2] == SelectStatusTxn <==> Busy(rs[i + 1]))
        && (log[i + 2] == SelectDistanceTxn <==> Idle(rs[i + 1]))
    {
      BusyRepollsAt(p, rs, i);
    }
  }

  /** From the velocity phase, a completed run selects and reads the delta-velocity register. */
  lemma VelocityTail(d: Uint16, rs: seq<Reply>)
    requires Cycle(SelectingVelocity(d), rs).outcome.Done?
    ensures var run := Cycle(SelectingVelocity(d), rs);
      && run.log == [SelectVelocityTxn, ReadVelocityTxn]
      && |rs[1].data| == 1
      && run.outcome.value == Reading(d, DecodeDeltaVelocity(rs[1].data[0]))
  {
    VelocityStep(d, rs);
  }

  /** From the distance phase, a completed run is the READ state: distance, then delta velocity. */
  lemma DistanceTail(rs: seq<Reply>)
    requires Cycle(SelectingDistance, rs).outcome.Done?
    ensures var run := Cycle(SelectingDistance, rs);
      && run.log == [SelectDistanceTxn, ReadDistanceTxn, SelectVelocityTxn, ReadVelocityTxn]
      && |rs[1].data| == 2 && |rs[3].data| == 1
      && run.outcome.value == Reading(Clamp(Reassemble(rs[1].data[0], rs[1].data[1])), DecodeDeltaVelocity(rs[3].data[0]))
  {
    CycleHead(SelectingDistance, rs);
    CycleHead(ReadingDistance, rs[1..]);
    var d := Clamp(Reassemble(rs[1].data[0], rs[1].data[1]));
    DistanceRead(rs);
    VelocityTail(d, rs[2..]);
  }

  /**
   * The shape of a completed run from WAIT_BUSY: status polls (select, read)
   * in which every read but the last reported busy and the last reported
   * idle, then the distance read and the delta-velocity read, ending with
   * the reading taken from their bytes.
   */
  predicate PollsThenRead(log: seq<Txn>, outcome: Res<Reading>, rs: seq<Reply>)
  {
    var n := |log|;
    && 6 <= n <= |rs| && n % 2 == 0
    && (forall i :: 0 <= i < n - 4 ==> log[i] == if i % 2 == 0 then SelectStatusTxn else ReadStatusTxn)
    && (forall i :: 0 <= i < n - 5 && i % 2 == 1 ==> Busy(rs[i]))
    && Idle(rs[n - 5])
    && log[n - 4..] == [SelectDistanceTxn, ReadDistanceTxn, SelectVelocityTxn, ReadVelocityTxn]
    && |rs[n - 3].data| == 2 && |rs[n - 1].data| == 1
    && outcome == Done(Reading(Clamp(Reassemble(rs[n - 3].data[0], rs[n - 3].data[1])), DecodeDeltaVelocity(rs[n - 1].data[0])))
  }

  /** From WAIT_BUSY, a completed run has the shape above. */
  lemma {:induction false} PollTail(rs: seq<Reply>)
    requires Cycle(SelectingStatus, rs).outcome.Done?
    ensures PollsThenRead(Cycle(SelectingStatus, rs).log, Cycle(SelectingStatus, rs).outcome, rs)
    decreases |rs|
  {
    CycleHead(SelectingStatus, rs);
    CycleHead(ReadingStatus, rs[1..]);
    assert rs[1..][0] == rs[1];
    StatusPolled(rs);
    var rest := Cycle(if Busy(rs[1]) then SelectingStatus else SelectingDistance, rs[2..]);
    if Busy(rs[1]) {
      PollTail(rs[2..]);
      PollsCons(Cycle(SelectingStatus, rs).log, rest.log, rest.outcome, rs);
    } else {
      DistanceTail(rs[2..]);
      PollDone(Cycle(SelectingStatus, rs).log, rest.log, rest.outcome, rs);
    }
  }

  /** The last status poll reported idle and READ followed. */
  lemma PollDone(log: seq<Txn>, rest: seq<Txn>, outcome: Res<Reading>, rs: seq<Reply>)
    requires |rs| >= 6 && Idle(rs[1]) && log == [SelectStatusTxn, ReadStatusTxn] + rest
    requires rest == [SelectDistanceTxn, ReadDistanceTxn, SelectVelocityTxn, ReadVelocityTxn]
    requires var r2 := rs[2..]; |r2[1].data| == 2 && |r2[3].data| == 1
    requires var r2 := rs[2..]; outcome == Done(Reading(Clamp(Reassemble(r2[1].data[0], r2[1].data[1])), DecodeDeltaVelocity(r2[3].data[0])))
    ensures PollsThenRead(log, outcome, rs)
  {
    assert rs[2..][1] == rs[3] && rs[2..][3] == rs[5];
    assert log[2..] == rest;
  }

  /** A status poll that reported busy, in front of a completed run from WAIT_BUSY, keeps its shape. */
  lemma PollsCons(log: seq<Txn>, rest: seq<Txn>, outcome: Res<Reading>, rs: seq<Reply>)
    requires |rs| >= 2 && Busy(rs[1]) && log == [SelectStatusTxn, ReadStatusTxn] + rest
    requires PollsThenRead(rest, outcome, rs[2..])
    ensures PollsThenRead(log, outcome, rs)
  {
    var r2 := rs[2..];
    var n, m := |log|, |rest|;
    forall i | 0 <= i < n - 4
      ensures log[i] == if i % 2 == 0 then SelectStatusTxn else ReadStatusTxn
    {
      if i >= 2 {
        assert log[i] == rest[i - 2];
      }
    }
    forall i | 0 <= i < n - 5 && i % 2 == 1
      ensures Busy(rs[i])
    {
      if i >= 2 {
        assert rs[i] == r2[i - 2];
      }
    }
    assert rs[n - 5] == r2[m - 5] && rs[n - 3] == r2[m - 3] && rs[n - 1] == r2[m - 1];
    assert log[n - 4..] == rest[m - 4..];
  }

  /**
   * The shape of a completed cycle: the acquire command, then status polls
   * (select and read) until one reports idle, each earlier one having
   * reported busy, then the distance read and the delta-velocity read. The
   * reading is the clamped distance from the two distance bytes and the
   * decoded delta-velocity byte.
   */
  predicate AcquirePollsRead(log: seq<Txn>, outcome: Res<Reading>, rs: seq<Reply>)
  {
    var n := |log|;
    && 7 <= n <= |rs| && n % 2 == 1
    && log[0] == AcquireTxn
    && (forall i :: 1 <= i < n - 4 ==> log[i] == if i % 2 == 1 then SelectStatusTxn else ReadStatusTxn)
    && (forall i :: 1 <= i < n - 5 && i % 2 == 0 ==> Busy(rs[i]))
    && Idle(rs[n - 5])
    && log[n - 4..] == [SelectDistanceTxn, ReadDistanceTxn, SelectVelocityTxn, ReadVelocityTxn]
    && |rs[n - 3].data| == 2 && |rs[n - 1].data| == 1
    && outcome == Done(Reading(Clamp(Reassemble(rs[n - 3].data[0], rs[n - 3].data[1])), DecodeDeltaVelocity(rs[n - 1].data[0])))
  }

  /** Every completed cycle has the shape above. */
  lemma CompletedCycle(rs: seq<Reply>)
    requires Cycle(Acquiring, rs).outcome.Done?
    ensures AcquirePollsRead(Cycle(Acquiring, rs).log, Cycle(Acquiring, rs).outcome, rs)
  {
    AcquireHandsOver(rs);
    PollTail(rs[1..]);
    var run, rest := Cycle(Acquiring, rs), Cycle(SelectingStatus, rs[1..]);
    AcquireThenPolls(run.log, rest.log, run.outcome, rs);
  }

  /** A cycle that completed got past the acquire command. */
  lemma AcquireHandsOver(rs: seq<Reply>)
    requires Cycle(Acquiring, rs).outcome.Done?
    ensures rs != [] && Cycle(Acquiring, rs) == Prepend([AcquireTxn], Cycle(SelectingStatus, rs[1..]))
  {
    CycleHead(Acquiring, rs);
  }

  /** The acquire command in front of a completed run from WAIT_BUSY moves every poll one place on. */
  lemma AcquireThenPolls(log: seq<Txn>, rest: seq<Txn>, outcome: Res<Reading>, rs: seq<Reply>)
    requires rs != [] && log == [AcquireTxn] + rest
    requires PollsThenRead(rest, outcome, rs[1..])
    ensures AcquirePollsRead(log, outcome, rs)
  {
    var r1 := rs[1..];
    var n, m := |log|, |rest|;
    forall i | 1 <= i < n - 4
      ensures log[i] == if i % 2 == 1 then SelectStatusTxn else ReadStatusTxn
    {
      assert log[i] == rest[i - 1];
    }
    forall i | 1 <= i < n - 5 && i % 2 == 0
      ensures Busy(rs[i])
    {
      assert rs[i] == r1[i - 1];
    }
    assert rs[n - 5] == r1[m - 5] && rs[n - 3] == r1[m - 3] && rs[n - 1] == r1[m - 1];
    assert log[n - 4..] == rest[m - 4..];
  }

  /** A sensor that refuses the acquire command: the cycle dies on its first write and sends nothing else. */
  lemma AcquireRefused(rs: seq<Reply>)
    requires rs != [] && rs[0].code != 0
    ensures Cycle(Acquiring, rs) == Run([AcquireTxn], Died(WriteAcqCmdFailed))
    ensures Message(Cycle(Acquiring, rs).outcome.error) == "lidar: write_acq_cmd: failed to write acquire command"
  {
  }

  /** READ with distance bytes 0x27 0x10 and delta byte 0xFF: a distance of 9999 and a delta of -1. */
  lemma ReadExample()
    ensures var ok := Reply(0, []);
      Cycle(SelectingDistance, [ok, Reply(0, [0x27, 0x10]), ok, Reply(0, [0xFF])]) ==
        Run([SelectDistanceTxn, ReadDistanceTxn, SelectVelocityTxn, ReadVelocityTxn], Done(Reading(9999, -1)))
  {
    var ok := Reply(0, []);
    var rs := [ok, Reply(0, [0x27, 0x10]), ok, Reply(0, [0xFF])];
    DistanceExample();
    DistanceRead(rs);
    assert rs[2..] == [ok, Reply(0, [0xFF])];
    VelocityStep(9999, rs[2..]);
  }

  /** Acquire, then one busy and one idle status poll, hand over to READ after five transactions. */
  lemma PollExample(tail: seq<Reply>)
    ensures var ok := Reply(0, []);
      Cycle(Acquiring, [ok, ok, Reply(0, [0x01]), ok, Reply(0, [0x00])] + tail) ==
        Prepend([AcquireTxn, SelectStatusTxn, ReadStatusTxn, SelectStatusTxn, ReadStatusTxn], Cycle(SelectingDistance, tail))
  {
    var ok := Reply(0, []);
    var idle := [ok, Reply(0, [0x00])] + tail;
    var polls := [ok, Reply(0, [0x01])] + idle;
    var rs := [ok] + polls;
    assert rs == [ok, ok, Reply(0, [0x01]), ok, Reply(0, [0x00])] + tail;
    StatusExamples();
    assert idle[2..] == tail;
    StatusPolled(idle);
    assert polls[2..] == idle;
    StatusPolled(polls);
    assert rs[1..] == polls;
    CycleNext(Acquiring, rs);
    var rest := Cycle(SelectingDistance, tail);
    PrependTwice([SelectStatusTxn, ReadStatusTxn], [SelectStatusTxn, ReadStatusTxn], rest);
    PrependTwice([AcquireTxn], [SelectStatusTxn, ReadStatusTxn] + [SelectStatusTxn, ReadStatusTxn], rest);
    assert [AcquireTxn] + ([SelectStatusTxn, ReadStatusTxn] + [SelectStatusTxn, ReadStatusTxn]) ==
      [AcquireTxn, SelectStatusTxn, ReadStatusTxn, SelectStatusTxn, ReadStatusTxn];
  }

  /**
   * One busy poll, one idle poll, distance bytes 0x27 0x10 and delta byte
   * 0xFF: nine transactions, a distance of 9999 and a delta of -1.
   */
  lemma CycleExample()
    ensures var ok := Reply(0, []);
      var rs := [ok, ok, Reply(0, [0x01]), ok, Reply(0, [0x00]), ok, Reply(0, [0x27, 0x10]), ok, Reply(0, [0xFF])];
      Cycle(Acquiring, rs) ==
        Run([AcquireTxn, SelectStatusTxn, ReadStatusTxn, SelectStatusTxn, ReadStatusTxn,
             SelectDistanceTxn, ReadDistanceTxn, SelectVelocityTxn, ReadVelocityTxn],
            Done(Reading(9999, -1)))
  {
    var ok := Reply(0, []);
    var tail := [ok, Reply(0, [0x27, 0x10]), ok, Reply(0, [0xFF])];
    ReadExample();
    PollExample(tail);
    assert [ok, ok, Reply(0, [0x01]), ok, Reply(0, [0x00])] + tail ==
      [ok, ok, Reply(0, [0x01]), ok, Reply(0, [0x00]), ok, Reply(0, [0x27, 0x10]), ok, Reply(0, [0xFF])];
  }

  /** A completed cycle reports a distance of at most 9999. */
  lemma ReadingSaturated(rs: seq<Reply>)
    requires Cycle(Acquiring, rs).outcome.Done?
    ensures Cycle(Acquiring, rs).outcome.value.distance <= MaxDistance
  {
    CompletedCycle(rs);
  }
}
