/**
 * The state of the mock serial port as a value, and what one read and a
 * read-to-delimiter run do to it.  The class in serial_mock.dfy keeps the
 * same fields and is specified by the functions here.
 */
module SerialState {

  /** Rust's u8. */
  type Byte = bv8

  /** Rust's u32: the baud rate and the read size are stored, never interpreted. */
  type U32 = x: int | 0 <= x < 0x1_0000_0000

  datatype Option<+T> = None | Some(value: T)

  /** Result<(), std::io::Error>; the error's kind and message are not modelled. */
  datatype IoResult = Ok | Err

  /** std::io::ErrorKind, carried in the success queue and never interpreted. */
  datatype ErrorKind = ErrorKind(code: nat)

  /** Every field of a MockableSerial. */
  datatype PortState = PortState(
    address: string,
    baud: U32,
    stopByte: Byte,
    readNBytes: U32,
    actualSuccess: bool,
    actualResponse: seq<Byte>,
    responseQueue: seq<seq<Byte>>,
    successQueue: seq<(bool, ErrorKind)>,
    lastReadIndex: nat)

  /** The state a freshly constructed port starts in. */
  function Initial(address: string, baud: U32, stopByte: Byte, readNBytes: U32): PortState
  {
    PortState(address, baud, stopByte, readNBytes, true, [], [], [], 0)
  }

  /**
   * The invariant every reachable port keeps: the cursor never passes the end
   * of the current frame, and an empty frame has the cursor at 0.  The cursor
   * may EQUAL the frame's length: a frame without a stop byte is read to its end.
   */
  ghost predicate WellFormed(s: PortState)
  {
    s.lastReadIndex <= |s.actualResponse| &&
    (s.actualResponse == [] ==> s.lastReadIndex == 0)
  }

  /** No frame is being delivered and the cursor is at its start. */
  predicate Idle(s: PortState)
  {
    s.actualResponse == [] && s.lastReadIndex == 0
  }

  /** The fields that no operation of the port ever changes. */
  predicate SameSettings(a: PortState, b: PortState)
  {
    a.address == b.address && a.baud == b.baud && a.stopByte == b.stopByte &&
    a.readNBytes == b.readNBytes && a.actualSuccess == b.actualSuccess &&
    a.successQueue == b.successQueue
  }

  /** A frame whose only occurrence of d is its last byte. */
  predicate Terminated(f: seq<Byte>, d: Byte)
  {
    |f| > 0 && f[|f| - 1] == d && d !in f[..|f| - 1]
  }

  /** Total number of bytes in a queue of frames. */
  function TotalLength(q: seq<seq<Byte>>): nat
  {
    if q == [] then 0 else |q[0]| + TotalLength(q[1..])
  }

  /** An upper bound on the bytes the port can still deliver. */
  function Remaining(s: PortState): nat
  {
    (if s.lastReadIndex <= |s.actualResponse| then |s.actualResponse| - s.lastReadIndex else 0)
    + TotalLength(s.responseQueue)
  }

  /** First step of a read: the front frame moves into the current frame only when the current one is empty. */
  predicate Refills(s: PortState)
  {
    s.actualResponse == [] && s.responseQueue != []
  }

  function Refill(s: PortState): (t: PortState)
    ensures SameSettings(t, s) && t.lastReadIndex == s.lastReadIndex
    ensures Remaining(t) <= Remaining(s)
  {
    if Refills(s) then
      s.(actualResponse := s.actualResponse + s.responseQueue[0],
         responseQueue := s.responseQueue[1..])
    else s
  }

  /**
   * The refill keeps the cursor where it was, but in a well-formed state the
   * cursor of an empty frame is already 0, so a refilled frame is read from its start.
   */
  lemma RefillStartsAtFrameStart(s: PortState)
    requires WellFormed(s) && Refills(s)
    ensures Refill(s).lastReadIndex == 0
    ensures Refill(s).actualResponse == s.responseQueue[0]
  {
  }

  /** The frame a read takes its byte from. */
  function ActiveFrame(s: PortState): seq<Byte>
  {
    Refill(s).actualResponse
  }

  /** A read does not panic: after the refill the cursor is a valid index. */
  predicate CanRead(s: PortState)
  {
    s.lastReadIndex < |ActiveFrame(s)|
  }

  datatype ReadOutcome = ReadOutcome(byte: Byte, result: IoResult, next: PortState)

  /**
   * One call of read: refill, take the byte under the cursor, then either
   * complete the frame (on the stop byte) or advance the cursor.
   */
  function ReadStep(s: PortState): (o: ReadOutcome)
    requires CanRead(s)
    ensures WellFormed(o.next)
    ensures SameSettings(o.next, s)
    ensures o.byte == ActiveFrame(s)[s.lastReadIndex]
    ensures o.byte != s.stopByte ==>
              o.next.actualResponse == ActiveFrame(s) && o.next.lastReadIndex == s.lastReadIndex + 1
    ensures o.next.responseQueue == Refill(s).responseQueue
    ensures o.byte == s.stopByte <==> Idle(o.next)
    ensures o.result == Ok <==> s.actualSuccess
    ensures Remaining(o.next) < Remaining(s)
  {
    var t := Refill(s);
    var v := t.actualResponse[t.lastReadIndex];
    var result := if s.actualSuccess then Ok else Err;
    if v == t.stopByte then
      ReadOutcome(v, result, t.(lastReadIndex := 0, actualResponse := []))
    else
      ReadOutcome(v, result, t.(lastReadIndex := t.lastReadIndex + 1))
  }

  /** Reading byte by byte from s reaches a byte equal to d before any read panics. */
  predicate CanReadUntil(s: PortState, d: Byte)
    decreases Remaining(s)
  {
    CanRead(s) && (ReadStep(s).byte == d || CanReadUntil(ReadStep(s).next, d))
  }

  datatype Delivery = Delivery(bytes: seq<Byte>, next: PortState)

  /** The bytes delivered by reading one byte at a time up to and including the first d. */
  function ReadUntil(s: PortState, d: Byte): (r: Delivery)
    requires CanReadUntil(s, d)
    ensures Terminated(r.bytes, d)
    ensures WellFormed(r.next) && SameSettings(r.next, s)
    ensures d == s.stopByte ==> Idle(r.next)
    decreases Remaining(s)
  {
    var step := ReadStep(s);
    if step.byte == d then Delivery([step.byte], step.next)
    else
      var rest := ReadUntil(step.next, d);
      Delivery([step.byte] + rest.bytes, rest.next)
  }

  /**
   * One more read of a run from start that has delivered buf so far and is now
   * at s: either it delivers d and the run ends, or the run goes on from the
   * next state with that byte added to buf.
   */
  lemma ReadUntilAdvance(start: PortState, s: PortState, d: Byte, buf: seq<Byte>)
    requires CanReadUntil(start, d) && CanReadUntil(s, d)
    requires ReadUntil(start, d) == Delivery(buf + ReadUntil(s, d).bytes, ReadUntil(s, d).next)
    ensures CanRead(s)
    ensures ReadStep(s).byte == d ==> ReadUntil(start, d) == Delivery(buf + [d], ReadStep(s).next)
    ensures ReadStep(s).byte != d ==>
              CanReadUntil(ReadStep(s).next, d) &&
              ReadUntil(start, d)
              == Delivery((buf + [ReadStep(s).byte]) + ReadUntil(ReadStep(s).next, d).bytes,
                          ReadUntil(ReadStep(s).next, d).next)
  {
    var step := ReadStep(s);
    if step.byte != d {
      var rest := ReadUntil(step.next, d);
      assert ReadUntil(s, d) == Delivery([step.byte] + rest.bytes, rest.next);
      assert buf + ([step.byte] + rest.bytes) == (buf + [step.byte]) + rest.bytes;
    }
  }

  /** k read-to-delimiter runs in a row succeed. */
  predicate CanReadResponses(s: PortState, d: Byte, k: nat)
    decreases k
  {
    k == 0 || (CanReadUntil(s, d) && CanReadResponses(ReadUntil(s, d).next, d, k - 1))
  }

  datatype Deliveries = Deliveries(frames: seq<seq<Byte>>, next: PortState)

  /** The responses returned by k read-to-delimiter runs in a row. */
  function ReadResponses(s: PortState, d: Byte, k: nat): (r: Deliveries)
    requires CanReadResponses(s, d, k)
    ensures |r.frames| == k
    ensures forall i :: 0 <= i < k ==> Terminated(r.frames[i], d)
    ensures SameSettings(r.next, s)
    decreases k
  {
    if k == 0 then Deliveries([], s)
    else
      var first := ReadUntil(s, d);
      var rest := ReadResponses(first.next, d, k - 1);
      Deliveries([first.bytes] + rest.frames, rest.next)
  }

  /**
   * Reading the rest of a current frame whose only stop byte is its last byte
   * returns exactly the bytes from the cursor to the end, and leaves the port
   * idle with the queue untouched.
   */
  lemma {:induction false} ReadsRestOfFrame(s: PortState)
    requires Terminated(s.actualResponse, s.stopByte)
    requires s.lastReadIndex < |s.actualResponse|
    ensures CanReadUntil(s, s.stopByte)
    ensures ReadUntil(s, s.stopByte)
         == Delivery(s.actualResponse[s.lastReadIndex..], s.(actualResponse := [], lastReadIndex := 0))
    decreases |s.actualResponse| - s.lastReadIndex
  {
    var f, i, d := s.actualResponse, s.lastReadIndex, s.stopByte;
    assert Refill(s) == s;
    var step := ReadStep(s);
    assert step.byte == f[i];
    if i == |f| - 1 {
      assert step.next == s.(actualResponse := [], lastReadIndex := 0);
      assert ReadUntil(s, d) == Delivery([f[i]], step.next);
      assert f[i..] == [f[i]];
    } else {
      assert f[i] in f[..|f| - 1];
      var s1 := s.(lastReadIndex := i + 1);
      assert step.next == s1;
      ReadsRestOfFrame(s1);
      assert ReadUntil(s, d) == Delivery([f[i]] + ReadUntil(s1, d).bytes, ReadUntil(s1, d).next);
      assert f[i..] == [f[i]] + f[i + 1..];
    }
  }

  /**
   * On an idle port, one read-to-stop-byte run returns exactly the front
   * frame of the queue (when its only stop byte is its last byte) and leaves
   * the port idle with that frame removed from the queue.
   */
  lemma ReadsQueuedFrame(s: PortState)
    requires Idle(s) && s.responseQueue != []
    requires Terminated(s.responseQueue[0], s.stopByte)
    ensures CanReadUntil(s, s.stopByte)
    ensures ReadUntil(s, s.stopByte)
         == Delivery(s.responseQueue[0], s.(responseQueue := s.responseQueue[1..]))
  {
    var t := s.(actualResponse := s.responseQueue[0], responseQueue := s.responseQueue[1..]);
    assert Refill(s) == t == Refill(t);
    assert ReadStep(s) == ReadStep(t);
    ReadsRestOfFrame(t);
    assert s.responseQueue[0][0..] == s.responseQueue[0];
  }

  /**
   * First in, first out: k read-to-stop-byte runs on an idle port return the
   * first k queued frames in queue order, each whole, and leave the remaining
   * frames queued.
   */
  lemma {:induction false} ReadsFramesInOrder(s: PortState, k: nat)
    requires Idle(s) && k <= |s.responseQueue|
    requires forall i :: 0 <= i < k ==> Terminated(s.responseQueue[i], s.stopByte)
    ensures CanReadResponses(s, s.stopByte, k)
    ensures ReadResponses(s, s.stopByte, k)
         == Deliveries(s.responseQueue[..k], s.(responseQueue := s.responseQueue[k..]))
    decreases k
  {
    var q := s.responseQueue;
    if k > 0 {
      ReadsQueuedFrame(s);
      var s1 := s.(responseQueue := q[1..]);
      ReadsFramesInOrder(s1, k - 1);
      assert q[1..][..k - 1] == q[1..k];
      assert q[1..][k - 1..] == q[k..];
      assert [q[0]] + q[1..k] == q[..k];
    }
  }

  /**
   * A read panics when nothing is active and the queue is empty, and also
   * when the front frame is empty: it is moved in and the empty frame has no
   * byte 0.
   */
  lemma EmptyPortCannotRead(s: PortState)
    requires s.actualResponse == []
    requires s.responseQueue == [] || s.responseQueue[0] == []
    ensures !CanRead(s)
  {
  }

  /**
   * Once a frame without a stop byte has been read to its end, every further
   * read panics, whatever frames are queued behind it.
   */
  lemma ExhaustedFrameBlocksQueue(s: PortState)
    requires s.actualResponse != [] && s.lastReadIndex == |s.actualResponse|
    ensures !CanRead(s)
  {
  }
}
