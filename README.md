# LiDAR-Lite driver (mbed) in Dafny

A model of the LiDAR-Lite range-finder driver in `main.cpp`, with proofs about it. The driver
talks to the sensor at I2C address `0x62 << 1`. Each time round `main`'s loop it does the
following:

1. It writes the acquire command `{0x00, 0x04}`.
2. It polls the status register until the busy bit clears.
3. It burst-reads the two distance registers through `0x8f`, reassembles them and saturates the
   result at 9999 cm.
4. It reads the signed delta-velocity register and adds it to an `int8_t` accumulator.
5. It prints the distance and the accumulated velocity.

Any failed bus transaction calls `die`, which prints a message and exits.

The project has six modules:

- `Bytes` (`bytes.dfy`) holds the machine integer types of the ARM target and the two's-complement
  store into an `int8_t`. On this target a plain `char` is unsigned.
- `Lidar` (`lidar.dfy`) holds the register map and the pure decoders. These are the busy mask,
  the multiply-and-shift health decode, the distance reassembly, the 9999 clamp and the
  `(int8_t)` cast. The contract of each decoder states what it means.
- `Bus` (`bus.dfy`) stands in for the mbed `I2C` object. Class `I2C` hands out replies the
  caller scripts in advance, one per transaction, and keeps a log of the transactions it
  answered. A transaction succeeds when its return code is zero.
- `Driver` (`driver.dfy`) holds `lidar_read_status`, `lidar_die`, `lidar_write_acq_cmd`,
  `lidar_read_distance` and `lidar_read_delta_velocity` as methods on the bus. Each method is
  proved against a function saying which transactions it issues and what it returns. Each `die`
  call site becomes an `Error` value.
- `Machine` (`machine.dfy`) holds one poll cycle as a state machine, `Cycle`, over the reply
  script. The cycle's states are ACQUIRE, WAIT_BUSY and READ. They are split into seven
  `Phase`s, and each phase issues one transaction: ACQUIRE is one write, each WAIT_BUSY poll is
  a select and a read, and READ is two selects and two reads.
  The lemmas state the order in which transactions happen, that a failure ends the cycle, and
  the exact shape of every completed cycle.
- `Poll` (`poll.dfy`) holds `main`'s loop body and loop as methods:
  - `WaitReady` is the do-while;
  - `ReadPhase` is the distance read, the clamp and the velocity read;
  - `PollCycle` is one iteration;
  - `PollLoop` runs a bounded number of iterations.

  These methods are proved to do exactly what `Cycle` and `Session` describe. The lemmas about
  `Session` connect the accumulator to the wrapped sum of the deltas.

The health decode `(buf * 0x20) >> 5` is reproduced as written. Stored into a `char`, it gives
back the whole status byte. So `healthy` is zero only for the byte 0x00. It is not the bit-5 test
that the mask `0x20` names. `HealthBit` is that bit-5 test, and the model keeps it only to state
the difference (`HealthIgnoresMask`).

## Model

| member | source | states |
|---|---|---|
| Bytes.Int8Of | main.cpp:179 | Storing into an `int8_t` gives a value in [-128, 127] that is congruent to the stored value modulo 256. A value that already fits is unchanged. |
| Bytes.Int8OfCongruent | main.cpp:179 | Two values congruent modulo 256 are stored as the same `int8_t`. |
| Bytes.Int8OfAbsorbs | main.cpp:179 | Wrapping an accumulator and then wrapping again after an addition is the same as wrapping the whole sum once. |
| Lidar.BusyOf | main.cpp:90 | `buf & 0x01` is bit 0 of the status byte: 1 when it is set, 0 when it is clear. |
| Lidar.HealthyOf | main.cpp:91 | The multiply-by-0x20, shift-right-by-5 decode, computed in a 32-bit `int` and stored into a `char`, returns the status byte unchanged for every byte. |
| Lidar.DecodeStatus | main.cpp:88-91 | The decoded status reports busy iff bit 0 is set, and healthy iff the status byte is nonzero. |
| Lidar.HealthBit | main.cpp:35 | The health mask 0x20 selects bit 5 of the status byte. Nothing in the driver computes this. |
| Lidar.HealthIgnoresMask | main.cpp:91 | The bytes 0x01 and 0x40 have bit 5 clear yet decode as healthy. Only 0x00 decodes as unhealthy. |
| Lidar.StatusExamples | main.cpp:90 | The status byte 0x01 decodes as busy and 0x00 as idle. |
| Lidar.Reassemble | main.cpp:136 | `buf[1] \| (buf[0] << 8)`, truncated to a `uint16_t`, equals `hi * 256 + lo` for every byte pair. That value always fits, so the truncation never changes it. |
| Lidar.ReassembleSplits | main.cpp:136 | The reassembled distance divided by 256 gives back the high byte, and its remainder modulo 256 gives back the low byte. |
| Lidar.DistanceExample | main.cpp:136 | The bytes 0x27 and 0x10 reassemble to 10000, which is reported as 9999. |
| Lidar.Clamp | main.cpp:174-176 | The reported distance is at most 9999 and at most the raw value. It is either the raw value or 9999, so it equals the raw value below 9999 and is 9999 otherwise. |
| Lidar.ClampIdempotent | main.cpp:174-176 | Clamping twice gives the same result as clamping once. |
| Lidar.ClampMonotone | main.cpp:174-176 | Clamping preserves the order of distances. |
| Lidar.DecodeDeltaVelocity | main.cpp:153 | The `int8_t` reading of the byte `b` is `b` when `b < 128` and `b - 256` otherwise. |
| Lidar.DeltaVelocityExamples | main.cpp:153 | 0xFF decodes to -1, 0x7F to 127 and 0x80 to -128. |
| Bus.Answer | main.cpp:80-87 | A transaction succeeds iff its return code is zero and, for a read, the reply carries the requested number of bytes. A successful read delivers those bytes. |
| Bus.Respond | main.cpp:80-87 | The next scripted reply answers a transaction. The transaction is unanswered only when the script is empty. |
| Bus.I2C.constructor | main.cpp:9 | A new bus holds the given script and an empty log. |
| Bus.I2C.Transfer | main.cpp:80-87 | The bus answers a transaction with the next reply, consumes that reply and appends the transaction to the log. With no reply left it changes nothing. |
| Bus.I2C.Write | main.cpp:80 | `i2c.write` is a transfer of a write transaction. |
| Bus.I2C.Read | main.cpp:85 | `i2c.read` is a transfer of a read transaction. |
| Driver.WriteExchange | main.cpp:114-116 | A write to the sensor issues its one transaction whenever a reply is left. It succeeds iff the return code is zero and otherwise dies with its own error. It runs out of script only when no reply is left. |
| Driver.SelectReadExchange | main.cpp:80-87 | A select followed by an `n`-byte read succeeds iff both return codes are zero and the read delivers `n` bytes. It then returns those bytes after issuing exactly the select and the read. A failed select dies with the select's error at once, without issuing the read. A failed read, or one that delivers the wrong number of bytes, dies with the read's error after both transactions. It runs out of script only when no reply is left for the select, or when the select succeeded with no reply left for the read. |
| Driver.AcqCmdExchange | main.cpp:109-117 | `lidar_write_acq_cmd` issues at most the write of `{0x00, 0x04}` to address 0xC4 and can die only with the acquire-command error. |
| Driver.StatusExchange | main.cpp:78-87 | `lidar_read_status` issues at most the select of register 0x01 and a one-byte read, and yields one byte on success. A failed select dies with the select-status error before any read. A failed read dies with the read-status error after both transactions. |
| Driver.DistanceExchange | main.cpp:124-133 | `lidar_read_distance` issues at most the select of register 0x8f and a two-byte read, and yields two bytes on success. A failed select dies with the select-distance error before any read. A failed read dies with the read-distance error after both transactions. |
| Driver.DeltaVelocityExchange | main.cpp:143-151 | `lidar_read_delta_velocity` issues at most the select of register 0x09 and a one-byte read, and yields one byte on success. A failed select dies with the select-velocity error before any read. A failed read dies with the read-velocity error after both transactions. |
| Driver.ReadStatus | main.cpp:78-92 | `lidar_read_status` issues the status select and read. On success it returns the decoded status byte. Otherwise it fails with the error of the step that failed. |
| Driver.CheckHealthy | main.cpp:97-104 | `lidar_die` reads the status and dies with "not healthy" exactly when the status byte is 0x00. Bus failures propagate. |
| Driver.WriteAcqCmd | main.cpp:109-117 | `lidar_write_acq_cmd` writes `{0x00, 0x04}` and dies if the write fails. |
| Driver.ReadDistance | main.cpp:124-137 | `lidar_read_distance` selects 0x8f, reads two bytes and returns `hi * 256 + lo`. Each failure has its own error. |
| Driver.ReadDeltaVelocity | main.cpp:143-154 | `lidar_read_delta_velocity` selects 0x09, reads one byte and returns its `int8_t` reading. |
| Machine.Cycle | main.cpp:160-179 | One poll cycle issues at most one transaction per reply. A cycle that completes or dies issued at least one transaction. A cycle that runs out of script used every reply. |
| Machine.Advance | main.cpp:160-179 | One step of the cycle dies, with its phase's error, iff its transaction failed. Only the delta-velocity read finishes the cycle, and it keeps the clamped distance carried into it. Every other successful step moves on. |
| Machine.AcquireStep | main.cpp:161 | The cycle's ACQUIRE phase issues what `lidar_write_acq_cmd` issues and hands over to WAIT_BUSY exactly when that write succeeds. |
| Machine.StatusStep | main.cpp:167 | One WAIT_BUSY poll issues what `lidar_read_status` issues. It polls again on a busy status and goes to READ on an idle one. |
| Machine.DistanceStep | main.cpp:172-176 | The distance read issues what `lidar_read_distance` issues and carries the clamped distance into the velocity read. |
| Machine.VelocityStep | main.cpp:179 | The velocity read issues what `lidar_read_delta_velocity` issues and completes the cycle with the clamped distance and the decoded delta. |
| Machine.AcquireFirst | main.cpp:161 | The first transaction of every cycle is the acquire write `{0x00, 0x04}`. |
| Machine.IntoSelectingDistance | main.cpp:166-172 | The only step that leads to the distance read is a status read that reported idle. |
| Machine.AfterStatusRead | main.cpp:166-169 | After a successful status read, the cycle polls again iff the status is busy and reads the distance iff it is idle. |
| Machine.CycleAnswers | main.cpp:80-151 | Every transaction of a cycle goes to the sensor's address. Each one succeeded, except the last one when the cycle died. |
| Machine.DistanceOnlyAfterIdle | main.cpp:166-172 | The distance registers are selected only right after a status select and read whose byte reported idle. |
| Machine.BusyRepolls | main.cpp:166-169 | Every status select that is not the last transaction is followed directly by the status read, even when that read ends the run. When a further transaction follows, it is another status select iff the byte reported busy, and the distance select iff it reported idle. |
| Machine.PollTail | main.cpp:166-179 | A completed run from WAIT_BUSY alternates status selects and reads, every read but the last reporting busy and the last reporting idle. It then reads the distance and the velocity, and the reading comes from their bytes. |
| Machine.CompletedCycle | main.cpp:160-179 | A completed cycle is the acquire write, then at least one status poll with only its last poll idle, then the distance read and the velocity read. Its reading is the clamped reassembled distance and the decoded delta. |
| Machine.AcquireRefused | main.cpp:114-116 | A refused acquire command ends the cycle after that one transaction, with the `write_acq_cmd` message. |
| Machine.ReadExample | main.cpp:172-179 | The READ phase turns distance bytes 0x27 0x10 and delta byte 0xFF into the reading (9999, -1). |
| Machine.PollExample | main.cpp:161-169 | Acquire followed by one busy poll and one idle poll hands over to READ after five transactions. |
| Machine.CycleExample | main.cpp:160-179 | A concrete nine-transaction cycle ends with the reading (9999, -1). |
| Machine.ReadingSaturated | main.cpp:174-176 | Every completed cycle reports a distance of at most 9999. |
| Poll.WaitReady | main.cpp:163-169 | The do-while issues exactly the WAIT_BUSY transactions of the cycle. It returns an idle status exactly when the cycle goes on to READ, and otherwise the cycle's failure. |
| Poll.ReadPhase | main.cpp:171-179 | The distance read, the in-place clamp and the velocity read issue exactly the cycle's READ transactions and produce its outcome. |
| Poll.ReportOf | main.cpp:179-182 | A cycle is reported iff it completed. The report has the cycle's distance and a velocity congruent modulo 256 to the accumulator plus the cycle's delta. A failure passes through unchanged. |
| Poll.PollCycle | main.cpp:160-182 | One loop iteration issues exactly the transactions of `Cycle`. It reports the clamped distance and the wrapped `velocity + delta`, or fails as the cycle does. |
| Poll.Session | main.cpp:156-183 | A run of at most `n` iterations produces one report, with a distance of at most 9999, per completed cycle. It completes all `n` iterations iff it is not stopped by a failure or by the end of the script. |
| Poll.PollLoop | main.cpp:156-183 | `main`'s loop, bounded to `cycles` iterations, issues the transactions of `Session` and prints exactly its reports. It stops exactly as the session stops. |
| Poll.Accumulate | main.cpp:179 | Adding deltas one at a time into an `int8_t` gives the full sum wrapped once to an `int8_t`. |
| Poll.AccumulateExamples | main.cpp:179 | From 0, the deltas 5, -3 and 10 give 12, and 127 then 1 wraps to -128. |
| Poll.StepsAccumulate | main.cpp:179 | If each velocity is the previous one plus its delta, wrapped, then the `i`-th velocity is the accumulation of the first `i + 1` deltas. |
| Poll.SessionSteps | main.cpp:157-179 | Each report's velocity is the previous report's velocity, or at the start the initial accumulator, plus that cycle's delta, wrapped to an `int8_t`. |
| Poll.VelocityIsWrappedSum | main.cpp:157-179 | Starting from 0, the `i`-th report carries the sum of the first `i + 1` deltas, wrapped to an `int8_t`. |
| Poll.SessionAnswers | main.cpp:46-56 | Every transaction of a run goes to the sensor and succeeded, except the last one when the run died. Nothing happens after a failure. |

## Left out

- The mbed `I2C` object (main.cpp:9) is replaced by a script of replies. Only the distinction
  between a zero and a nonzero return code is modelled. A read that returns zero but delivers
  the wrong number of bytes counts as a failed read; a real `i2c.read` cannot do this.
- `wait(0.5)` (main.cpp:168) is left out because it has no effect on the values.
- `die` (main.cpp:46-56) prints a message and exits. Here it is an `Error` value that ends the
  run. `Driver.Message` gives each call site's text, and the formatting and `exit(1)` are not
  modelled.
- The `printf` report (main.cpp:181-182) is the `Report` value. Its text formatting is not
  modelled.
- The endless `while (1)` (main.cpp:159) runs at most `cycles` iterations in `PollLoop`.
- The unbounded busy-wait (main.cpp:166-169) is bounded by the reply script. A sensor that stays
  busy for ever shows as a run that ends when the script runs out (`OutOfScript`).
- `lidar_read_status` writes its result through a pointer. `ReadStatus` returns it instead.
- `lidar_die` is never called from `main`, so `CheckHealthy` is modelled but not part of a cycle.
- `Driver.Message`: no lemma relates the strings to anything beyond their use in
  `AcquireRefused`.
