/**
 * The driver's bus operations (main.cpp:46-154): each selects a register
 * or sends a command over the bus and decodes what comes back. Where the
 * source calls `die`, which prints a message and exits, these return an
 * error value that ends the run.
 */
module Driver {
  import opened Bytes
  import opened Lidar
  import opened Bus

  /** The fatal conditions, one per `die` call site. */
  datatype Error =
    | SelectStatusFailed
    | ReadStatusFailed
    | NotHealthy
    | WriteAcqCmdFailed
    | SelectDistanceFailed
    | ReadDistanceFailed
    | SelectDeltaVelocityFailed
    | ReadDeltaVelocityFailed

  /** The diagnostic `die` prints for each condition. */
  function Message(e: Error): string
  {
    match e
    case SelectStatusFailed => "lidar: read_status: failed to select status register for read"
    case ReadStatusFailed => "lidar: read_status: failed to read status register"
    case NotHealthy => "lidar: sensor is not healthy"
    case WriteAcqCmdFailed => "lidar: write_acq_cmd: failed to write acquire command"
    case SelectDistanceFailed => "lidar: read_distance: failed to select distance registers for read"
    case ReadDistanceFailed => "lidar: read_distance: failed to read distance registers"
    case SelectDeltaVelocityFailed => "lidar: read_delta_velocity: failed to select delta velocity register for read"
    case ReadDeltaVelocityFailed => "lidar: read_delta_velocity: failed to read delta velocity register"
  }

  /**
   * The result of a driver operation: a value, a fatal error, or the end of
   * the scripted bus replies (the model's end of observation, not an error
   * of the driver).
   */
  datatype Res<T> = Done(value: T) | Died(error: Error) | OutOfScript {
    /** The same failure, for a caller with a different result type. */
    function Abort<U>(): (r: Res<U>)
      requires !Done?
      ensures !r.Done? && r.Died? == Died?
      ensures Died? ==> r.error == error
    {
      if Died? then Died(error) else OutOfScript
    }
  }

  /** What an operation returns and which transactions it issued. */
  datatype Exchange<T> = Exchange(res: Res<T>, log: seq<Txn>)

  /** Writing `bytes` to the sensor against the replies `rs`, dying with `err` if the write fails. */
  function WriteExchange(bytes: seq<Byte>, err: Error, rs: seq<Reply>): (x: Exchange<()>)
    ensures x.res.OutOfScript? <==> rs == []
    ensures x.res.Done? <==> rs != [] && rs[0].code == 0
    ensures x.res.Died? ==> x.res.error == err
    ensures x.log == if rs == [] then [] else [Write(LidarAddr, bytes)]
  {
    var t := Write(LidarAddr, bytes);
    match Respond(t, rs)
    case Unanswered => Exchange(OutOfScript, [])
    case Nacked => Exchange(Died(err), [t])
    case Acked(_) => Exchange(Done(()), [t])
  }

  /**
   * Selecting register `reg` with a one-byte write, then reading `n` bytes
   * back, dying with `selErr` or `readErr` at the step that fails.
   */
  function SelectReadExchange(reg: Byte, n: nat, selErr: Error, readErr: Error, rs: seq<Reply>): (x: Exchange<seq<Byte>>)
    ensures |x.log| <= |rs|
    ensures x.res.Done? <==> |rs| >= 2 && rs[0].code == 0 && rs[1].code == 0 && |rs[1].data| == n
    ensures x.res.Done? ==> x.res.value == rs[1].data && x.log == [Write(LidarAddr, [reg]), Read(LidarAddr, n)]
    ensures x.res.Died? ==>
      || (x.res.error == selErr && x.log == [Write(LidarAddr, [reg])])
      || (x.res.error == readErr && x.log == [Write(LidarAddr, [reg]), Read(LidarAddr, n)])
    ensures x.res.OutOfScript? <==> rs == [] || (|rs| == 1 && rs[0].code == 0)
    ensures rs != [] && rs[0].code != 0 ==> x.res == Died(selErr) && x.log == [Write(LidarAddr, [reg])]
    ensures |rs| >= 2 && rs[0].code == 0 && (rs[1].code != 0 || |rs[1].data| != n) ==>
      x.res == Died(readErr) && x.log == [Write(LidarAddr, [reg]), Read(LidarAddr, n)]
  {
    var sel := WriteExchange([reg], selErr, rs);
    if !sel.res.Done? then Exchange(sel.res.Abort(), sel.log)
    else
      var t := Read(LidarAddr, n);
      match Respond(t, rs[1..])
      case Unanswered => Exchange(OutOfScript, sel.log)
      case Nacked => Exchange(Died(readErr), sel.log + [t])
      case Acked(data) => Exchange(Done(data), sel.log + [t])
  }

  /** `lidar_write_acq_cmd`'s one transaction: the acquire command `{0x00, 0x04}` to the sensor. */
  function AcqCmdExchange(rs: seq<Reply>): (x: Exchange<()>)
    ensures x.log <= [Write(0xC4, [0x00, 0x04])]
    ensures x.res.Died? ==> x.res.error == WriteAcqCmdFailed
  {
    WriteExchange([AcqCmdReg, AcqCmd], WriteAcqCmdFailed, rs)
  }

  /** `lidar_read_status`'s transactions: select register 0x01, read one byte. */
  function StatusExchange(rs: seq<Reply>): (x: Exchange<seq<Byte>>)
    ensures x.log <= [Write(0xC4, [0x01]), Read(0xC4, 1)]
    ensures x.res.Done? ==> |x.res.value| == 1
    ensures x.res.Died? ==> x.res.error == SelectStatusFailed || x.res.error == ReadStatusFailed
    ensures x.res.OutOfScript? <==> rs == [] || (|rs| == 1 && rs[0].code == 0)
    ensures rs != [] && rs[0].code != 0 ==> x.res == Died(SelectStatusFailed) && x.log == [Write(0xC4, [0x01])]
    ensures |rs| >= 2 && rs[0].code == 0 && (rs[1].code != 0 || |rs[1].data| != 1) ==>
      x.res == Died(ReadStatusFailed) && x.log == [Write(0xC4, [0x01]), Read(0xC4, 1)]
  {
    SelectReadExchange(StatusReg, 1, SelectStatusFailed, ReadStatusFailed, rs)
  }

  /** `lidar_read_distance`'s transactions: select register 0x8f, read two bytes. */
  function DistanceExchange(rs: seq<Reply>): (x: Exchange<seq<Byte>>)
    ensures x.log <= [Write(0xC4, [0x8f]), Read(0xC4, 2)]
    ensures x.res.Done? ==> |x.res.value| == 2
    ensures x.res.Died? ==> x.res.error == SelectDistanceFailed || x.res.error == ReadDistanceFailed
    ensures x.res.OutOfScript? <==> rs == [] || (|rs| == 1 && rs[0].code == 0)
    ensures rs != [] && rs[0].code != 0 ==> x.res == Died(SelectDistanceFailed) && x.log == [Write(0xC4, [0x8f])]
    ensures |rs| >= 2 && rs[0].code == 0 && (rs[1].code != 0 || |rs[1].data| != 2) ==>
      x.res == Died(ReadDistanceFailed) && x.log == [Write(0xC4, [0x8f]), Read(0xC4, 2)]
  {
    SelectReadExchange(DistReg, 2, SelectDistanceFailed, ReadDistanceFailed, rs)
  }

  /** `lidar_read_delta_velocity`'s transactions: select register 0x09, read one byte. */
  function DeltaVelocityExchange(rs: seq<Reply>): (x: Exchange<seq<Byte>>)
    ensures x.log <= [Write(0xC4, [0x09]), Read(0xC4, 1)]
    ensures x.res.Done? ==> |x.res.value| == 1
    ensures x.res.Died? ==> x.res.error == SelectDeltaVelocityFailed || x.res.error == ReadDeltaVelocityFailed
    ensures x.res.OutOfScript? <==> rs == [] || (|rs| == 1 && rs[0].code == 0)
    ensures rs != [] && rs[0].code != 0 ==> x.res == Died(SelectDeltaVelocityFailed) && x.log == [Write(0xC4, [0x09])]
    ensures |rs| >= 2 && rs[0].code == 0 && (rs[1].code != 0 || |rs[1].data| != 1) ==>
      x.res == Died(ReadDeltaVelocityFailed) && x.log == [Write(0xC4, [0x09]), Read(0xC4, 1)]
  {
    SelectReadExchange(DeltaVelocityReg, 1, SelectDeltaVelocityFailed, ReadDeltaVelocityFailed, rs)
  }

  /** `lidar_read_status`: select the status register, read one byte, unpack it. */
  method ReadStatus(bus: I2C) returns (res: Res<LidarStatus>)
    modifies bus
    ensures var x := StatusExchange(old(bus.replies));
      && Advanced(old(bus.log), old(bus.replies), bus.log, bus.replies, x.log)
      && res == if x.res.Done? then Done(DecodeStatus(x.res.value[0])) else x.res.Abort()
  {
    var w := bus.Write(LidarAddr, [StatusReg]);
    if w.Unanswered? {
      return OutOfScript;
    } else if w.Nacked? {
      return Died(SelectStatusFailed);
    }
    var r := bus.Read(LidarAddr, 1);
    if r.Unanswered? {
      return OutOfScript;
    } else if r.Nacked? {
      return Died(ReadStatusFailed);
    }
    var buf := r.data[0];
    res := Done(LidarStatus(BusyOf(buf), HealthyOf(buf)));
  }

  /**
   * `lidar_die`: read the status and die if the sensor is not healthy,
   * which, with the health decode as written, is exactly when the status
   * byte is 0x00.
   */
  method CheckHealthy(bus: I2C) returns (res: Res<()>)
    modifies bus
    ensures var x := StatusExchange(old(bus.replies));
      && Advanced(old(bus.log), old(bus.replies), bus.log, bus.replies, x.log)
      && res == if !x.res.Done? then x.res.Abort()
                else if x.res.value[0] == 0 then Died(NotHealthy)
                else Done(())
  {
    var status := ReadStatus(bus);
    if !status.Done? {
      return status.Abort();
    }
    if status.value.healthy == 0 {
      return Died(NotHealthy);
    }
    res := Done(());
  }

  /** `lidar_write_acq_cmd`: write `{0x00, 0x04}`, the acquire command. */
  method WriteAcqCmd(bus: I2C) returns (res: Res<()>)
    modifies bus
    ensures var x := AcqCmdExchange(old(bus.replies));
      && Advanced(old(bus.log), old(bus.replies), bus.log, bus.replies, x.log)
      && res == x.res
  {
    var w := bus.Write(LidarAddr, [AcqCmdReg, AcqCmd]);
    if w.Unanswered? {
      return OutOfScript;
    } else if w.Nacked? {
      return Died(WriteAcqCmdFailed);
    }
    res := Done(());
  }

  /** `lidar_read_distance`: burst-read the two distance registers and reassemble them. */
  method ReadDistance(bus: I2C) returns (res: Res<Uint16>)
    modifies bus
    ensures var x := DistanceExchange(old(bus.replies));
      && Advanced(old(bus.log), old(bus.replies), bus.log, bus.replies, x.log)
      && res == if x.res.Done? then Done(x.res.value[0] as int * 0x100 + x.res.value[1] as int) else x.res.Abort()
  {
    var w := bus.Write(LidarAddr, [DistReg]);
    if w.Unanswered? {
      return OutOfScript;
    } else if w.Nacked? {
      return Died(SelectDistanceFailed);
    }
    var r := bus.Read(LidarAddr, 2);
    if r.Unanswered? {
      return OutOfScript;
    } else if r.Nacked? {
      return Died(ReadDistanceFailed);
    }
    var buf := r.data;
    res := Done(Reassemble(buf[0], buf[1]));
  }

  /** `lidar_read_delta_velocity`: read the delta-velocity register as an `int8_t`. */
  method ReadDeltaVelocity(bus: I2C) returns (res: Res<Int8>)
    modifies bus
    ensures var x := DeltaVelocityExchange(old(bus.replies));
      && Advanced(old(bus.log), old(bus.replies), bus.log, bus.replies, x.log)
      && res == if x.res.Done? then Done(DecodeDeltaVelocity(x.res.value[0])) else x.res.Abort()
  {
    var w := bus.Write(LidarAddr, [DeltaVelocityReg]);
    if w.Unanswered? {
      return OutOfScript;
    } else if w.Nacked? {
      return Died(SelectDeltaVelocityFailed);
    }
    var r := bus.Read(LidarAddr, 1);
    if r.Unanswered? {
      return OutOfScript;
    } else if r.Nacked? {
      return Died(ReadDeltaVelocityFailed);
    }
    var buf := r.data[0];
    res := Done(Int8Of(buf as int));
  }
}
