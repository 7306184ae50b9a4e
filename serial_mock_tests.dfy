/**
 * The read-to-delimiter helper of the port's unit tests, and the tests
 * themselves as client code of the port's specification.
 */
module SerialMockTests {
  import opened SerialState
  import opened SerialMock

  /** The byte the helper stops at: '#', fixed in the helper, not the port's stop byte. */
  const Terminator: Byte := 0x23

  /**
   * Reads one byte at a time into a one-byte buffer, collecting the bytes,
   * until a Terminator has been collected.  An error result panics, so reads
   * must succeed; every read must also be one that does not panic.
   */
  method ReadResp(p: MockableSerial) returns (finalBuffer: seq<Byte>)
    requires p.actualSuccess
    requires CanReadUntil(p.State(), Terminator)
    modifies p
    ensures Delivery(finalBuffer, p.State()) == ReadUntil(old(p.State()), Terminator)
  {
    ghost var start := p.State();
    finalBuffer := [];
    while true
      invariant p.actualSuccess
      invariant CanReadUntil(p.State(), Terminator)
      invariant ReadUntil(start, Terminator)
             == Delivery(finalBuffer + ReadUntil(p.State(), Terminator).bytes,
                         ReadUntil(p.State(), Terminator).next)
      decreases Remaining(p.State())
    {
      var readBuf := new Byte[1](_ => 0);
      ReadUntilAdvance(start, p.State(), Terminator, finalBuffer);
      var r := p.Read(readBuf);
      match r {
        case Ok =>
          var byte := readBuf[0];
          finalBuffer := finalBuffer + [byte];
          if byte == Terminator {
            break;
          }
        case Err =>
          assert false;
      }
    }
  }

  /** A built port, once opened, reports the configuration it was built with. */
  method TestInit() returns (port: MockableSerial)
    ensures port.address == "/dev/null" && port.baud == 115200
    ensures port.stopByte == 0x35 && port.readNBytes == 1
  {
    var m := MockableSerialBuilder.New("/dev/null", 115200, 0x35, 1, None);
    port := m.OpenNative();
  }

  /** A frame added to an opened port with nothing queued is at the front of its queue. */
  method TestAddResponse() returns (port: MockableSerial)
    ensures |port.responseQueue| > 0 && port.responseQueue[0] == [0x65, 0x65, 0x65]
  {
    var m := MockableSerialBuilder.New("/dev/null", 115200, 0x35, 1, None);
    port := m.OpenNative();
    port.AddResponse([0x65, 0x65, 0x65]);
  }

  /** Reading one queued frame to '#' returns "hello world#". */
  method TestRead() returns (finalBuffer: seq<Byte>)
    ensures finalBuffer == [0x68, 0x65, 0x6c, 0x6c, 0x6f, 0x20, 0x77, 0x6f, 0x72, 0x6c, 0x64, 0x23]
  {
    var m := MockableSerialBuilder.New("/dev/null", 115200, 0x23, 1, None);
    var port := m.OpenNative();
    var hello: seq<Byte> := [0x68, 0x65, 0x6c, 0x6c, 0x6f, 0x20, 0x77, 0x6f, 0x72, 0x6c, 0x64, 0x23];
    port.AddResponse(hello);
    assert Terminated(hello, 0x23);
    ReadsQueuedFrame(port.State());
    finalBuffer := ReadResp(port);
  }

  /** Frames given to the builder are queued in order and unread after opening. */
  method TestInitialResponse() returns (port: MockableSerial)
    ensures |port.responseQueue| >= 2
    ensures port.responseQueue[0] == [0x65, 0x65, 0x65]
    ensures port.responseQueue[1] == [0x64, 0x64, 0x64]
  {
    var initResp: seq<seq<Byte>> := [[0x65, 0x65, 0x65], [0x64, 0x64, 0x64]];
    var m := MockableSerialBuilder.New("/dev/null", 115200, 0x35, 1, Some(initResp));
    port := m.OpenNative();
  }

  /** Two read-to-'#' runs return "test1#" and then "test2#", whole and in order. */
  method TestMultipleResponses() returns (resp1: seq<Byte>, resp2: seq<Byte>)
    ensures resp1 == [0x74, 0x65, 0x73, 0x74, 0x31, 0x23]
    ensures resp2 == [0x74, 0x65, 0x73, 0x74, 0x32, 0x23]
  {
    var test1: seq<Byte> := [0x74, 0x65, 0x73, 0x74, 0x31, 0x23];
    var test2: seq<Byte> := [0x74, 0x65, 0x73, 0x74, 0x32, 0x23];
    var m := MockableSerialBuilder.New("/dev/null", 115200, 0x23, 1, Some([test1, test2]));
    var port := m.OpenNative();

    assert Terminated(test1, 0x23) && Terminated(test2, 0x23);
    ReadsQueuedFrame(port.State());
    resp1 := ReadResp(port);
    ReadsQueuedFrame(port.State());
    resp2 := ReadResp(port);
  }
}
