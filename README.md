# serial-mock in Dafny

A model of `MockableSerial`, a test double for a serial port. Tests use it to script what a "device" answers. The port holds a configuration, a FIFO of queued response frames, the frame currently being delivered, a read cursor into that frame and a success flag. `read` hands out one byte per call:

1. It pulls the front frame into the current frame when the current frame is empty.
2. It returns the byte under the cursor.
3. On the stop byte it clears the frame and resets the cursor; otherwise it advances the cursor.
4. It reports success or failure according to the flag.

`add_response` queues a copy of a frame, and `MockableSerialBuilder::new` pre-loads a list of frames.

The project has three modules:

- `SerialState` (serial_state.dfy): the port's fields as a value (`PortState`) and its invariant `WellFormed`. It defines one read (`ReadStep`), a run of reads up to a delimiter (`ReadUntil`) and several runs in a row (`ReadResponses`). The lemmas about these state what a reader observes: a frame comes back whole, and frames come back in FIFO order.
- `SerialMock` (serial_mock.dfy): the class `MockableSerial`, whose methods update its fields in place, and `MockableSerialBuilder.New`. Every method is specified against `SerialState` on `State()`, the object's fields viewed as a value.
- `SerialMockTests` (serial_mock_tests.dfy): the tests' `read_resp` helper as `ReadResp`, a loop proved against `ReadUntil`. The five unit tests are written as client methods whose `ensures` state what each test asserts, proved from the specifications alone (`TestInit`, `TestAddResponse`, `TestRead`, `TestInitialResponse`, `TestMultipleResponses`).

Rust panics become preconditions. A read panics in three cases: nothing is active and nothing is queued; nothing is active and the front queued frame is empty; or the cursor is at the end of a frame that has no stop byte. All three fail `CanRead` (`EmptyPortCannotRead`, `ExhaustedFrameBlocksQueue`): after the refill, the cursor must be an index of the current frame. Writing to an empty `buff` also panics, which is `buff.Length > 0`.

Behaviours of the code worth noting:

- The refill does not reset the cursor. In every well-formed state an empty frame already has its cursor at 0, so a refilled frame is still read from its start (`RefillStartsAtFrameStart`).
- The cursor can equal the frame's length. A frame without a stop byte is read to its end and then blocks every later read, including reads of frames queued behind it (`ExhaustedFrameBlocksQueue`). The invariant is therefore "cursor ≤ frame length", not "cursor is a valid index".
- There is no per-call failure injection. `success_queue` is only initialised and copied. `actual_success` is set to true by `new` and no operation changes it.
- `read_resp` stops at the fixed byte `0x23`, not at the port's stop byte (`Terminator`). The lemmas about whole frames take the port's stop byte as the delimiter. The tests that read both use `0x23`.

## Model

| member | source | states |
|---|---|---|
| `SerialState.Refill` | src/lib.rs:80-86 | the refill changes only the current frame and the queue; it leaves the cursor where it was (it does not reset it) and never adds deliverable bytes |
| `SerialState.RefillStartsAtFrameStart` | src/lib.rs:82-85 | in a well-formed state the refill installs the front frame with the cursor already at 0, so the missing cursor reset is harmless |
| `SerialState.ReadStep` | src/lib.rs:79-103 | one read keeps the invariant "cursor ≤ frame length, and an empty frame has cursor 0" from any state in which the read does not panic (no `WellFormed` assumed); it changes none of the settings or the success flag; the byte is the one under the cursor in the frame after the refill; the queue is the queue after the refill; on any other byte than the stop byte the frame is kept and the cursor advances by one; the port becomes idle (empty frame, cursor 0) exactly when the byte is the stop byte; the result is `Ok` iff `actual_success`; the bytes left to deliver strictly decrease |
| `SerialState.ReadUntil` | src/lib.rs:120-141 | reading byte by byte up to a delimiter returns a non-empty sequence whose last byte is the delimiter and which holds no earlier delimiter; the settings are unchanged; when the delimiter is the stop byte, the port ends idle |
| `SerialState.ReadResponses` | src/lib.rs:185-198 | k read-to-delimiter runs in a row return k responses, each ending at its first delimiter, and change no setting |
| `SerialState.ReadsRestOfFrame` | src/lib.rs:88-96 | when the current frame's only stop byte is its last byte, reading from cursor i returns exactly the frame's bytes from i to the end; the port is left idle and the queue untouched |
| `SerialState.ReadsQueuedFrame` | src/lib.rs:164-172 | on an idle port, one read-to-stop-byte run returns exactly the front queued frame (when its only stop byte is its last byte); that frame leaves the queue, the rest stays queued, and the port is idle again |
| `SerialState.ReadsFramesInOrder` | src/lib.rs:185-198 | FIFO: k runs on an idle port return the first k queued frames, whole and in queue order, never interleaved; the remaining frames stay queued |
| `SerialState.EmptyPortCannotRead` | src/lib.rs:82-88 | a read with no active frame panics when the queue is empty, and also when its front frame is empty |
| `SerialState.ExhaustedFrameBlocksQueue` | src/lib.rs:88 | once a frame without a stop byte has been read to its end, every further read panics, whatever is queued |
| `SerialMock.MockableSerial.constructor` | src/lib.rs:47-58 | address, baud, stop byte and read size are stored unchanged; there is no current frame, both queues are empty, the cursor is 0 and `actual_success` is true |
| `SerialMock.MockableSerial.OpenNative` | src/lib.rs:61-73 | returns a new, separate port whose every field (configuration, flag, current frame, both queues, cursor) equals the source's; the source is unchanged |
| `SerialMock.MockableSerial.Write` | src/lib.rs:75-77 | always returns `Ok` and changes no state |
| `SerialMock.MockableSerial.Read` | src/lib.rs:79-103 | pops the front frame into the current frame exactly when the current frame is empty and the queue is not; writes the byte under the cursor to `buff[0]` and leaves the rest of `buff` alone; on the stop byte it clears the frame and resets the cursor, otherwise it advances the cursor by one; settings and flag are unchanged; returns `Ok` iff `actual_success`; the new state is `ReadStep` of the old one |
| `SerialMock.MockableSerial.AddResponse` | src/lib.rs:105-112 | the queue becomes the old queue followed by an element-for-element copy of the frame; nothing else changes, so the invariant `Valid()` is kept |
| `SerialMock.MockableSerialBuilder.New` | src/lib.rs:7-23 | a fresh port in the initial state whose queue holds the given frames, position i holding the i-th one; with `None` the queue is empty |
| `SerialMockTests.TestInit` | src/lib.rs:143-152 | a port built with `/dev/null`, 115200, `0x35`, 1 and no frames reports that address, baud, stop byte and read size after opening |
| `SerialMockTests.TestAddResponse` | src/lib.rs:154-161 | after adding `[0x65, 0x65, 0x65]` to an opened port with nothing queued, that frame is at queue position 0 |
| `SerialMockTests.TestRead` | src/lib.rs:163-172 | reading the queued frame "hello world#" to `0x23` returns exactly its twelve bytes |
| `SerialMockTests.TestInitialResponse` | src/lib.rs:174-182 | frames `[0x65, 0x65, 0x65]` and `[0x64, 0x64, 0x64]` given to the builder sit at queue positions 0 and 1 after opening |
| `SerialMockTests.TestMultipleResponses` | src/lib.rs:184-198 | two read-to-`0x23` runs on a port built with "test1#" and "test2#" return "test1#" and then "test2#", each whole |
| `SerialMockTests.ReadResp` | src/lib.rs:120-141 | the loop returns exactly the bytes `ReadUntil` delivers up to the first `0x23`, and the port ends in the state `ReadUntil` describes |

## Left out

- The error value: `std::io::Error`, its `ErrorKind::Other` and its message are reduced to the case `Err` of `IoResult`.
- The contents of `success_queue`: the code never consults it, so the model only stores and copies it. Its `ErrorKind` is an opaque code.
- The meaning of `address`, `baud` and `read_n_bytes`: they are stored and copied, never interpreted.
- The `SerialMock` trait: it only declares the interface, so its methods are modelled directly on the class.
- Allocation in `add_response` (`Vec::with_capacity`): only the resulting sequence is modelled.
- UTF-8 decoding in the tests: the tests' string comparisons are stated as comparisons of byte sequences.
- The panic paths themselves: a read that would panic, and `read_resp` on an `Err`, are excluded by preconditions instead of being modelled as outcomes.
