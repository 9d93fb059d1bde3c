/**
 * The Razor IMU receiver: the object that owns the frame decoder's state and
 * updates it in place, one byte at a time, as bytes arrive from the serial
 * port. Its methods are proved against the value-level machine of ImuFrame.
 */
module RazorImu {
  import opened ImuChecksum
  import opened ImuPayload
  import opened ImuFrame

  class RazorImuMod {
    const imuBuffer: array<byte>
    var imuStep: ImuState
    var payloadLength: byte
    var payloadCounter: byte

    // Checksum computed over the frame, and the one transmitted with it.
    var ckA: byte
    var ckB: byte
    var imuCkA: byte
    var imuCkB: byte

    var imuPayloadErrorCount: nat
    var imuChecksumErrorCount: nat
    var imuMessagesReceived: nat

    var imuOk: bool
    var imuAnalogsOk: bool

    // roll_sensor, pitch_sensor and ground_course, written together.
    var attitude: Attitude
    // analog_x, analog_y, analog_z and acc_x, acc_y, acc_z, written together.
    var analogs: Analogs

    /** The receiver's fields as a Machine value. */
    ghost function State(): Machine
      reads this, imuBuffer
    {
      Machine(imuStep, payloadLength, payloadCounter, Ck(ckA, ckB), Ck(imuCkA, imuCkB),
              imuPayloadErrorCount, imuChecksumErrorCount, imuMessagesReceived,
              imuBuffer[..],
              attitude, analogs,
              imuOk, imuAnalogsOk)
    }

    ghost predicate Valid()
      reads this, imuBuffer
    {
      Good(State())
    }

    /** A new receiver waits for the first header byte with everything zeroed. */
    constructor ()
      ensures Valid() && fresh(imuBuffer)
      ensures State() == Initial()
    {
      imuBuffer := new byte[BufferSize](_ => 0);
      imuStep := ReadHeader1;
      payloadLength, payloadCounter := 0, 0;
      ckA, ckB, imuCkA, imuCkB := 0, 0, 0, 0;
      imuPayloadErrorCount, imuChecksumErrorCount, imuMessagesReceived := 0, 0, 0;
      imuOk, imuAnalogsOk := false, false;
      attitude := Attitude(0.0, 0.0, 0.0);
      analogs := Analogs(0, 0, 0, 0, 0, 0);
      new;
      assert imuBuffer[..] == seq(BufferSize, _ => 0);
    }

    /** Adds one byte to the running checksum. */
    method Checksum(data: byte)
      modifies this`ckA, this`ckB
      ensures Ck(ckA, ckB) == Update(old(Ck(ckA, ckB)), data)
    {
      ckA := (ckA + data) % 256;
      ckB := (ckB + ckA) % 256;
    }

    /** Message 0x02: roll, pitch and yaw from buffer offsets 0 to 5, over 100. */
    method ImuJoinData()
      requires imuBuffer.Length == BufferSize
      modifies this`imuMessagesReceived, this`attitude, this`imuOk
      ensures State() == old(State()).(messagesReceived := old(State()).messagesReceived + 1,
                                       attitude := DecodeAttitude(imuBuffer[..]), imuOk := true)
    {
      imuMessagesReceived := imuMessagesReceived + 1;
      attitude := Attitude(Int16(imuBuffer[0], imuBuffer[1]) as real / 100.0,
                           Int16(imuBuffer[2], imuBuffer[3]) as real / 100.0,
                           Int16(imuBuffer[4], imuBuffer[5]) as real / 100.0);
      imuOk := true;
    }

    /** Message 0x05: analog x, y, z then accelerometer x, y, z from offsets 0 to 11. */
    method ImuAnalogsJoinData()
      requires imuBuffer.Length == BufferSize
      modifies this`imuMessagesReceived, this`analogs, this`imuAnalogsOk
      ensures State() == old(State()).(messagesReceived := old(State()).messagesReceived + 1,
                                       analogs := DecodeAnalogs(imuBuffer[..]), analogsOk := true)
    {
      imuMessagesReceived := imuMessagesReceived + 1;
      analogs := Analogs(Int16(imuBuffer[0], imuBuffer[1]), Int16(imuBuffer[2], imuBuffer[3]),
                         Int16(imuBuffer[4], imuBuffer[5]), Int16(imuBuffer[6], imuBuffer[7]),
                         Int16(imuBuffer[8], imuBuffer[9]), Int16(imuBuffer[10], imuBuffer[11]));
      imuAnalogsOk := true;
    }

    /**
     * One byte through the switch on IMU_step. `messageNum` is the receive
     * loop's local message_num: the id of the frame in progress, if it was
     * read during the same call.
     */
    method Step(data: byte, messageNum: byte) returns (messageNum': byte, events: seq<Event>)
      requires Valid()
      modifies this, imuBuffer
      ensures Valid()
      ensures Stepped(State(), messageNum', events) == Next(old(State()), messageNum, data)
    {
      messageNum', events := messageNum, [];
      match imuStep
      case ReadHeader1 =>
        if data == 0x44 {
          imuStep := ReadHeader2;
        }
      case ReadHeader2 =>
        if data == 0x49 {
          imuStep := ReadHeader3;
        } else {
          imuStep := ReadHeader1;
        }
      case ReadHeader3 =>
        if data == 0x59 {
          imuStep := ReadHeader4;
        } else {
          imuStep := ReadHeader1;
        }
      case ReadHeader4 =>
        if data == 0x64 {
          imuStep := ReadPayloadLength;
        } else {
          imuStep := ReadHeader1;
        }
      case ReadPayloadLength =>
        events := TakeLength(data, messageNum);
      case ReadMessageId =>
        messageNum' := data;
        Checksum(data);
        imuStep := ReadPayload;
      case ReadPayload =>
        TakePayloadByte(data, messageNum);
      case ReadChecksum1 =>
        imuCkA := data;
        imuStep := ReadChecksum2;
      case ReadChecksum2 =>
        events := FinishFrame(data, messageNum);
    }

    /** ReadPayloadLength: checksum the length byte, then reject it if above 28. */
    method TakeLength(data: byte, messageNum: byte) returns (events: seq<Event>)
      requires Valid() && imuStep == ReadPayloadLength
      modifies this
      ensures Valid()
      ensures Stepped(State(), messageNum, events) == LengthStep(old(State()), messageNum, data)
    {
      ghost var m := State();
      ghost var buf := imuBuffer[..];
      payloadLength := data;
      Checksum(payloadLength);
      assert imuBuffer[..] == buf;
      ghost var counted := State();
      assert counted == m.(payloadLength := data, ck := Update(m.ck, data));
      imuStep := ReadMessageId;
      events := [];
      if payloadLength > MaxPayload {
        Restart();
        imuPayloadErrorCount := imuPayloadErrorCount + 1;
        events := [PayloadTooLong(data)];
        assert State() == counted.(step := ReadHeader1, payloadCounter := 0, ck := Zero, payloadErrors := m.payloadErrors + 1);
        assert LengthStep(m, messageNum, data).machine == counted.(step := ReadHeader1, payloadCounter := 0, ck := Zero, payloadErrors := m.payloadErrors + 1);
      } else {
        assert State() == counted.(step := ReadMessageId);
        assert LengthStep(m, messageNum, data).machine == counted.(step := ReadMessageId);
      }
    }

    /** ReadPayload: store the byte at the counter, checksum it, and count it. */
    method TakePayloadByte(data: byte, messageNum: byte)
      requires Valid() && imuStep == ReadPayload
      modifies this, imuBuffer
      ensures Valid()
      ensures Stepped(State(), messageNum, []) == PayloadStep(old(State()), messageNum, data)
    {
      imuBuffer[payloadCounter] := data;
      Checksum(data);
      payloadCounter := payloadCounter + 1;
      if payloadCounter >= payloadLength {
        imuStep := ReadChecksum1;
      }
    }

    /** The variable initialisation that ends every frame: back to the first header byte. */
    method Restart()
      modifies this`imuStep, this`payloadCounter, this`ckA, this`ckB
      ensures State() == old(State()).(step := ReadHeader1, payloadCounter := 0, ck := Zero)
    {
      imuStep := ReadHeader1;
      payloadCounter := 0;
      ckA := 0;
      ckB := 0;
    }

    /**
     * ReadChecksum2: compare the checksums, dispatch on message_num when they
     * agree, count a checksum error when they do not, then restart.
     */
    method FinishFrame(data: byte, messageNum: byte) returns (events: seq<Event>)
      requires Valid() && imuStep == ReadChecksum2
      modifies this
      ensures Valid()
      ensures Stepped(State(), messageNum, events) == ChecksumStep(old(State()), messageNum, data)
    {
      ghost var m := State();
      imuCkB := data;
      ghost var received := State();
      assert received == m.(receivedCk := Ck(m.receivedCk.a, data));
      var ev: Event;
      if ckA == imuCkA && ckB == imuCkB {
        ev := DispatchMessage(messageNum);
      } else {
        ev := CountChecksumError();
      }
      ghost var judged := State();
      assert (judged, ev) == (if received.receivedCk == m.ck then Dispatch(received, messageNum)
                              else (received.(checksumErrors := m.checksumErrors + 1), ChecksumMismatch));
      Restart();
      events := [ev];
    }

    /** A frame whose checksum did not match: count it. */
    method CountChecksumError() returns (ev: Event)
      modifies this`imuChecksumErrorCount
      ensures State() == old(State()).(checksumErrors := old(State()).checksumErrors + 1)
      ensures ev == ChecksumMismatch
    {
      imuChecksumErrorCount := imuChecksumErrorCount + 1;
      ev := ChecksumMismatch;
    }

    /** The if/else chain on message_num, for a frame whose checksum matched. */
    method DispatchMessage(messageNum: byte) returns (ev: Event)
      requires imuBuffer.Length == BufferSize
      modifies this
      ensures (State(), ev) == Dispatch(old(State()), messageNum)
    {
      if messageNum == 0x02 {
        ImuJoinData();
        ev := Orientation(attitude);
      } else if messageNum == 0x03 {
        // GPS_join_data is not implemented.
        ev := Unsupported(messageNum);
      } else if messageNum == 0x04 {
        // IMU2_join_data is not implemented.
        ev := Unsupported(messageNum);
      } else if messageNum == 0x05 {
        ImuAnalogsJoinData();
        ev := AnalogReadings(analogs);
      } else {
        ev := InvalidMessageNumber(messageNum);
      }
    }

    /**
     * The data-received handler: every byte of the chunk through Step, with
     * message_num starting at 0 for this call. Returns what was reported.
     */
    method Feed(bytes: seq<byte>) returns (events: seq<Event>)
      requires Valid()
      modifies this, imuBuffer
      ensures Valid()
      ensures State() == Run(old(State()), 0, bytes).machine
      ensures events == Run(old(State()), 0, bytes).events
    {
      var messageNum: byte := 0;
      events := [];
      var i := 0;
      while i < |bytes|
        invariant 0 <= i <= |bytes|
        invariant Valid()
        invariant Run(old(State()), 0, bytes[..i]) == Stepped(State(), messageNum, events)
      {
        var emitted;
        messageNum, emitted := Step(bytes[i], messageNum);
        RunAppend(old(State()), 0, bytes[..i], [bytes[i]]);
        assert bytes[..i + 1] == bytes[..i] + [bytes[i]];
        events := events + emitted;
        i := i + 1;
      }
      assert bytes[..i] == bytes;
    }
  }
}
