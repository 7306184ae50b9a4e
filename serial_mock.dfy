/**
 * The mock serial port: an object whose read and add_response update its
 * fields in place, and the builder that pre-loads responses.  Each method is
 * specified against the functions of SerialState on State().
 */
module SerialMock {
  import opened SerialState

  class MockableSerial {
    var address: string
    var baud: U32
    var actualSuccess: bool
    var actualResponse: seq<Byte>
    var responseQueue: seq<seq<Byte>>
    var successQueue: seq<(bool, ErrorKind)>
    var stopByte: Byte
    var readNBytes: U32
    var lastReadIndex: nat

    /** The port's fields as a value. */
    ghost function State(): PortState
      reads this
    {
      PortState(address, baud, stopByte, readNBytes, actualSuccess,
                actualResponse, responseQueue, successQueue, lastReadIndex)
    }

    ghost predicate Valid()
      reads this
    {
      WellFormed(State())
    }

    /** Stores the configuration; no frame, nothing queued, cursor 0, reads succeed. */
    constructor (address: string, baud: U32, stopByte: Byte, readNBytes: U32)
      ensures State() == Initial(address, baud, stopByte, readNBytes)
      ensures Valid() && Idle(State())
    {
      this.address := address;
      this.baud := baud;
      this.stopByte := stopByte;
      this.readNBytes := readNBytes;
      actualSuccess := true;
      actualResponse := [];
      responseQueue := [];
      lastReadIndex := 0;
      successQueue := [];
    }

    /** "Opening" the port yields a separate port whose every field equals this one's. */
    method OpenNative() returns (port: MockableSerial)
      ensures fresh(port)
      ensures port.State() == State()
    {
      port := new MockableSerial(address, baud, stopByte, readNBytes);
      port.actualSuccess := actualSuccess;
      port.actualResponse := actualResponse;
      port.responseQueue := responseQueue;
      port.lastReadIndex := lastReadIndex;
      port.successQueue := successQueue;
    }

    /** Writing always succeeds and changes nothing. */
    method Write(b: seq<Byte>) returns (r: IoResult)
      ensures r == Ok
    {
      r := Ok;
    }

    /**
     * Delivers one byte into buff[0].  Panics (excluded by the precondition)
     * when buff is empty or when, after the refill, the cursor is not an index
     * of the current frame.
     */
    method Read(buff: array<Byte>) returns (r: IoResult)
      requires buff.Length > 0
      requires CanRead(State())
      modifies this, buff
      ensures responseQueue == if old(Refills(State())) then old(responseQueue[1..]) else old(responseQueue)
      ensures buff[0] == ActiveFrame(old(State()))[old(lastReadIndex)]
      ensures buff[0] == stopByte ==> actualResponse == [] && lastReadIndex == 0
      ensures buff[0] != stopByte ==>
                actualResponse == ActiveFrame(old(State())) && lastReadIndex == old(lastReadIndex) + 1
      ensures SameSettings(State(), old(State()))
      ensures r == Ok <==> actualSuccess
      ensures forall i :: 1 <= i < buff.Length ==> buff[i] == old(buff[i])
      ensures Valid()
      ensures var o := ReadStep(old(State())); State() == o.next && buff[0] == o.byte && r == o.result
    {
      if actualResponse == [] && responseQueue != [] {
        actualResponse := actualResponse + responseQueue[0];
        responseQueue := responseQueue[1..];
      }

      var v := actualResponse[lastReadIndex];
      buff[0] := v;

      if v == stopByte {
        lastReadIndex := 0;
        actualResponse := [];
      } else {
        lastReadIndex := lastReadIndex + 1;
      }

      if actualSuccess {
        r := Ok;
      } else {
        r := Err;
      }
    }

    /** Queues an element-for-element copy of r behind the frames already queued. */
    method AddResponse(r: seq<Byte>)
      modifies this
      ensures State() == old(State()).(responseQueue := old(responseQueue) + [r])
      ensures old(Valid()) ==> Valid()
    {
      var newResp: seq<Byte> := [];
      for i := 0 to |r|
        invariant newResp == r[..i]
      {
        newResp := newResp + [r[i]];
      }
      assert r[..|r|] == r;
      responseQueue := responseQueue + [newResp];
    }
  }

  class MockableSerialBuilder {
    /** A new port with the given frames queued in the order given, or none for None. */
    static method New(address: string, baud: U32, stopByte: Byte, readNBytes: U32,
                      initialResponseData: Option<seq<seq<Byte>>>)
      returns (m: MockableSerial)
      ensures fresh(m)
      ensures m.State() == Initial(address, baud, stopByte, readNBytes).(
                responseQueue := if initialResponseData.Some? then initialResponseData.value else [])
      ensures m.Valid() && Idle(m.State())
    {
      m := new MockableSerial(address, baud, stopByte, readNBytes);

      if initialResponseData.Some? {
        var rData := initialResponseData.value;
        for i := 0 to |rData|
          invariant m.State() == Initial(address, baud, stopByte, readNBytes).(responseQueue := rData[..i])
        {
          m.AddResponse(rData[i]);
          assert rData[..i + 1] == rData[..i] + [rData[i]];
        }
        assert rData[..|rData|] == rData;
      }
    }
  }
}
