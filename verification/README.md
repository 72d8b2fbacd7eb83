# dummyserial: a verified model of the mock serial port

`dummyserial` provides `Serial`, a stand-in for a pySerial port used by test
suites that need a serial device without hardware. The port holds an open
flag, its name, a response table from written payloads to reply bytes, a
timeout, a baud rate and a pending output buffer. `write(data)` looks the
payload up in the table and stages the reply (or the package's "no data
present" marker) as the pending buffer. `read(size)` drains that buffer: a
buffer equal to the package's default response is handed back whole and
kept; otherwise a read smaller than the buffer returns a prefix and keeps the
rest, a read of exactly the buffer returns it all, and a larger read first
sleeps for the timeout and then returns it all. In the last two cases the
buffer becomes the "no data" marker again. `open` and `close` toggle the open
flag and the name, and `inWaiting` reports the pending length.

The model is functional. A port is an immutable `Serial.Port` record, and
each operation is a total function returning either the new state (and the
output) or the tag of the exception raised. An exception carries no state,
so the state after a failing call is the state before it. `Session.Apply`
makes that explicit. The package constants (`NO_DATA_PRESENT`,
`DEFAULT_RESPONSE`, `DEFAULT_TIMEOUT`, `DEFAULT_BAUDRATE`) live in a module
that is not part of this model. They are a `Constants` record passed to every
operation that consults them (construction, write, read), so every property
holds for every value of them. The two markers are not assumed to be equal or
empty. Where a lemma's conclusion depends on that, the lemma states it as a
hypothesis, either of the whole lemma or of one of its cases:
`NoDataReadsAreIdempotent`, `UnknownPayloadReadsNoData`,
`ReadGrowsOnlyByReset`, `ReadPastDrainSleeps` and `PingPong`.

Files:
- `base.dfy`: bytes, `Option`, `Result`, `Sum`, `Concat`.
- `constants.dfy`: the package constants as a parameter record.
- `serial.dfy`: the port record and its operations (`dummyserial/classes.py`).
- `drain.dfy`: runs of reads, the drain property, sentinel reads, pending counts.
- `session.dfy`: sequences of calls, preserved invariants, open/close laws.

Behaviours of the code worth noting:
- `close` does not clear the pending buffer, and `open` does not either. The
  buffer survives a close/open cycle and `inWaiting` still reports it after a
  close.
- A read that empties the buffer leaves the "no data" marker, not an empty
  buffer. Afterwards `inWaiting` reports the marker's length, not 0. The
  pending length can therefore grow after such a read.
- A read returns the buffer whole regardless of its size only when the buffer
  equals the default response, or is empty and the timeout is not negative.
  `WholeForEverySize` states both directions of this.
- The "no data" marker gets no such treatment of its own, although a full
  read of it, and a larger read when the timeout is not negative, also
  return it whole. An unconfigured payload reads back the marker whole for
  every size exactly when the two markers are equal, or when the marker is
  empty and the timeout is not negative. `UnknownPayloadReadsNoData` states
  both directions of this.
- A read that must sleep for a negative timeout raises the error of the
  sleep, before the buffer changes.
- A callable response is staged as the pending buffer and never invoked. A
  later `read` or `inWaiting` then raises a type error when it takes the
  length of the callable, so the callable is never handed back to the caller.
- `read` checks for a closed port before it checks the size. On a closed port
  `read(-1)` raises the closed-port error, not the negative-size error.

## Model

| member | source | states |
|---|---|---|
| Serial.Init | dummyserial/classes.py:47-61 | construction fails exactly when no `port` argument is given; otherwise the port is open, named, has its initial name equal to its name, stages the "no data" marker, and takes the given table, timeout and baud rate or else an empty table and the package's defaults |
| Serial.Open | dummyserial/classes.py:78-86 | raises `AlreadyOpen` exactly when the port is open; otherwise the port becomes open under its initial name; the pending buffer and configuration are kept |
| Serial.Close | dummyserial/classes.py:88-93 | always succeeds and leaves the port closed with no name; pending buffer and configuration unchanged |
| Serial.Write | dummyserial/classes.py:117-121 | raises `PortNotOpen` exactly when the port is closed; otherwise the pending buffer becomes the payload's configured reply verbatim, or the "no data" marker for a payload not in the table (the lookup of lines 196-202), and no other field changes |
| Serial.Read | dummyserial/classes.py:141-176 | closed port raises `PortNotOpen` even for a negative size; open port with a negative size raises `NegativeSize`; the default response is returned whole with no state change; otherwise the output is a prefix of the buffer of length min(size, pending); a smaller read keeps exactly the rest (output followed by new buffer is the old buffer); a full or larger read leaves the "no data" marker; only a larger read sleeps, for the port's timeout, and it raises `NegativeTimeout` without any change when that timeout is negative; in the model an open port with a non-negative size fails in no other way; only the buffer changes |
| Draining.ReadAll | dummyserial/classes.py:141-176 | a successful run of reads is empty or ran on an open port with non-negative sizes; with a non-negative timeout that condition also guarantees success; a failure carries `PortNotOpen` on a closed port, otherwise `NegativeSize` or `NegativeTimeout`, and only `PortNotOpen` or `NegativeTimeout` when every size is non-negative; one chunk per read; only the buffer changes |
| Draining.DrainReturnsBuffer | dummyserial/classes.py:149-176 | reads whose sizes add up to the pending length (last one non-zero, and neither the buffer nor any remainder a read leaves behind equal to the default response) return chunks that concatenate to exactly the pending buffer, never sleep, and leave the "no data" marker |
| Draining.WriteThenDrain | dummyserial/classes.py:117-176 | writing a configured payload and draining its reply in sizes that add up to its length (last one non-zero, and neither the reply nor any remainder a read leaves behind equal to the default response) hands back exactly the configured reply |
| Draining.SentinelReadsAreIdempotent | dummyserial/classes.py:151-152 | any run of non-negative reads on a port holding the default response returns it every time, never sleeps, and leaves the port unchanged |
| Draining.WholeForEverySize | dummyserial/classes.py:151-176 | on an open port, every non-negative read size returns the whole buffer exactly when the buffer is the default response, or is empty and the timeout is not negative |
| Draining.NoDataReadsAreIdempotent | dummyserial/classes.py:151-176 | a port holding the "no data" marker hands it back whole on every read of any run and stays unchanged, when the marker is the default response or is empty with a non-negative timeout |
| Draining.UnknownPayloadReadsNoData | dummyserial/classes.py:196-202 | a payload missing from the table stages the "no data" marker; every later run of reads returns it whole and leaves the port unchanged when the marker is the default response or is empty with a non-negative timeout; otherwise one read already differs: a read of 0 returns the empty string and leaves the port unchanged (non-empty marker) or a read of 1 raises `NegativeTimeout` (empty marker) |
| Draining.PartialReadLowersInWaiting | dummyserial/classes.py:153-162 | a read smaller than the pending buffer lowers `inWaiting` by exactly the size read |
| Draining.ReadGrowsOnlyByReset | dummyserial/classes.py:160-176 | a successful read never raises the pending count unless it reset the buffer to the "no data" marker; with an empty marker it never raises it |
| Draining.ReadPastDrainSleeps | dummyserial/classes.py:163-176 | after a full drain, a read longer than the "no data" marker (distinct from the default response) sleeps for the timeout and returns the marker, or raises `NegativeTimeout` when the timeout is negative |
| Draining.PingPong | dummyserial/classes.py:149-176 | with `PING` mapped to `PONG`: write `PING`, read 2 gives `PO` with 2 bytes pending, read 2 gives `NG` and leaves the "no data" marker |
| Session.Apply | dummyserial/classes.py:78-194 | a call that raises leaves the port unchanged; no call of the port's own methods changes the configuration; only write and read change the buffer; only open and close change the flag and name; `inWaiting` (`Serial.InWaiting`, lines 188-194) never raises, reports the pending length and changes nothing; every call keeps the name/flag agreement |
| Session.Run | dummyserial/classes.py:78-194 | any sequence of calls to the port's own methods gives one reply per call, keeps the configuration and the name/flag agreement, and keeps the buffer when it contains no write or read |
| Session.CloseIsIdempotent | dummyserial/classes.py:88-93 | closing twice is the same as closing once, and the port is closed |
| Session.ClosedPortRejectsIo | tests/test_classes.py:109-148 | on a closed port, write and read of any size raise `PortNotOpen` and leave the port (still closed) unchanged |
| Session.OpenWhileOpenRaises | tests/test_classes.py:165-184 | opening an open port raises `AlreadyOpen` and leaves it unchanged |
| Session.CloseThenOpenRestores | dummyserial/classes.py:78-93 | close then open returns a valid open port to exactly its previous state, pending buffer included |
| Session.WriteForgetsPending | dummyserial/classes.py:117-121 | on an open port the result of a write does not depend on what was pending before it |
| Session.SessionsFromInitAreValid | dummyserial/classes.py:47-61 | every session started from a constructed port keeps the name/flag agreement and the initial name |

## Left out

- Logging: handler setup, debug calls and `_ashex` only format log lines.
- `__repr__` depends on the object's identity and is diagnostic formatting only.
- Real time: `time.sleep(self.timeout)` is a `sleptFor` field of the read's output that holds the timeout. A negative timeout is the `NegativeTimeout` error.
- Serial.Read: does not model the range limit of the sleep. A timeout too large in magnitude for the sleep's internal nanosecond count (about 9.2e9 seconds) makes the sleep raise an overflow error before the buffer changes. The model lets a large positive timeout succeed, and it reports a large negative timeout as `NegativeTimeout`. The limit depends on floating-point rounding, and the model's timeout is an exact real.
- Python 2/3 text handling: the `bytearray` to `bytes` conversion and the str/bytes branches. A payload is a byte sequence.
- Callable responses: the table maps payloads to bytes only. The code never invokes a callable value, and a staged callable makes the next `read` or `inWaiting` raise a type error.
- Positional constructor arguments: they are accepted and only logged.
- Baud rate and timeout values of other Python types: the baud rate is an `int` and the timeout a `real`.
- The pySerial exception classes and the package's exception module: the exceptions are the tags of `Serial.Error`.
- The package constants module is not part of this model. Its values are a parameter.
- `in_waiting` is the same as `inWaiting` and is not modelled separately.
- Serial.Init: an argument passed explicitly as `None` is not distinguished from one not given. The source builds an open port named `None` for `port=None`, stores `None` for `responses=None` (every later write then raises a type error), and stores `None` for `timeout=None` (every over-read then raises a type error). The model treats these as missing arguments, because its port name, table and timeout are plain values.
- Shared and reassigned attributes: the model copies the response table, timeout, baud rate and name into the port record at construction and treats them as fixed values. The source keeps a reference to the caller's `responses` dict (classes.py line 57) and looks each payload up in it at write time (lines 199-200), so the caller can change the replies after construction. The attributes `responses`, `timeout`, `baudrate` and `port` are also public, and callers may reassign them between calls. `SameConfig`, and the "configuration kept" clauses of `Session.Apply` and `Session.Run`, cover only calls to the port's own methods.
- `read()` with no argument reads one byte in the source. The model always passes the size, so that call is `Read(k, p, 1)`.
- Draining.DrainReturnsBuffer: requires the last read size to be non-zero. This excludes trailing zero-size reads after the buffer is emptied. Such a read faces the "no data" marker and returns it whole when the marker is the default response. It also excludes a lone `read(0)` of an empty buffer, which returns the empty buffer.
- Draining.WriteThenDrain: has the same two restrictions as `DrainReturnsBuffer`. The last read size must be non-zero, and the reply and each remainder a read leaves behind must differ from the default response.
