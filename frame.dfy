/**
 * The per-byte state machine of RazorImuMod as a value-level transition
 * function: `Next` is one iteration of the receive loop (one case of the
 * switch on IMU_step), `Run` is the loop over a chunk of bytes.
 */
module ImuFrame {
  import opened ImuChecksum
  import opened ImuPayload

  /** Capacity of IMU_buffer. */
  const BufferSize: nat := 30
  /** Largest accepted payload length. */
  const MaxPayload: byte := 28

  /** The four magic header bytes 'D' 'I' 'Y' 'd'. */
  const Magic: seq<byte> := [0x44, 0x49, 0x59, 0x64]

  /** IMUState: where the machine is in the frame. */
  datatype ImuState =
    | ReadHeader1 | ReadHeader2 | ReadHeader3 | ReadHeader4
    | ReadPayloadLength | ReadMessageId | ReadPayload
    | ReadChecksum1 | ReadChecksum2
  {
    /** Synchronising on the magic header. */
    predicate IsHeader() {
      ReadHeader1? || ReadHeader2? || ReadHeader3? || ReadHeader4?
    }

    /** States in which the frame's message id has already been read. */
    predicate AfterMessageId() {
      ReadPayload? || ReadChecksum1? || ReadChecksum2?
    }
  }

  /** What one byte made the machine report. */
  datatype Event =
    | Orientation(attitude: Attitude)      // id 0x02 decoded
    | AnalogReadings(analogs: Analogs)     // id 0x05 decoded
    | Unsupported(id: byte)                // id 0x03 (GPS) or 0x04 (IMU2): no decoder
    | InvalidMessageNumber(id: byte)       // any other id
    | ChecksumMismatch
    | PayloadTooLong(length: byte)
  {
    predicate IsDecoded() { Orientation? || AnalogReadings? }

    /** The events that one of the three counters counts. */
    predicate CountedBy(c: Counter) {
      match c
      case PayloadErrorCount => PayloadTooLong?
      case ChecksumErrorCount => ChecksumMismatch?
      case MessagesReceived => IsDecoded()
    }
  }

  /** The three statistics counters of the receiver. */
  datatype Counter = PayloadErrorCount | ChecksumErrorCount | MessagesReceived

  /** The persistent fields of one RazorImuMod receiver. */
  datatype Machine = Machine(
    step: ImuState,
    payloadLength: byte,
    payloadCounter: byte,
    ck: Ck,                  // ck_a, ck_b: computed checksum
    receivedCk: Ck,          // IMU_ck_a, IMU_ck_b: transmitted checksum
    payloadErrors: nat,      // imu_payload_error_count
    checksumErrors: nat,     // imu_checksum_error_count
    messagesReceived: nat,   // imu_messages_received
    buffer: seq<byte>,       // IMU_buffer
    attitude: Attitude,      // roll_sensor, pitch_sensor, ground_course
    analogs: Analogs,        // analog_x .. acc_z
    imuOk: bool,
    analogsOk: bool)

  /** A freshly constructed receiver: every field at its C# default. */
  function Initial(): (m: Machine)
    ensures Good(m) && m.step == ReadHeader1
  {
    Machine(ReadHeader1, 0, 0, Zero, Zero, 0, 0, 0, seq(BufferSize, _ => 0),
            Attitude(0.0, 0.0, 0.0), Analogs(0, 0, 0, 0, 0, 0), false, false)
  }

  /**
   * Number of payload bytes the machine consumes for a length byte: the
   * payload state always takes at least one byte, even for length 0.
   */
  function PayloadBytes(length: byte): (n: nat)
    ensures n >= 1 && n >= length
    ensures length > 0 ==> n == length
  {
    if length == 0 then 1 else length
  }

  /**
   * The invariant the receive loop keeps: between frames nothing is
   * counted or accumulated, and every payload write index stays below
   * PayloadBytes(length) <= 28 < 30.
   */
  predicate Good(m: Machine)
  {
    && |m.buffer| == BufferSize
    && ((m.step.IsHeader() || m.step == ReadPayloadLength) ==> m.payloadCounter == 0 && m.ck == Zero)
    && (m.step == ReadMessageId ==> m.payloadCounter == 0 && m.payloadLength <= MaxPayload)
    && (m.step == ReadPayload ==> m.payloadLength <= MaxPayload && m.payloadCounter < PayloadBytes(m.payloadLength))
  }

  /** Number of events in `evs` that counter `c` counts. */
  function Count(evs: seq<Event>, c: Counter): nat
    decreases |evs|
  {
    if evs == [] then 0 else (if evs[0].CountedBy(c) then 1 else 0) + Count(evs[1..], c)
  }

  /** The value of counter `c` in `m`. */
  function CounterValue(m: Machine, c: Counter): nat
  {
    match c
    case PayloadErrorCount => m.payloadErrors
    case ChecksumErrorCount => m.checksumErrors
    case MessagesReceived => m.messagesReceived
  }

  lemma {:induction false} CountAppend(a: seq<Event>, b: seq<Event>, p: Counter)
    ensures Count(a + b, p) == Count(a, p) + Count(b, p)
    decreases |a|
  {
    if a == [] {
      assert [] + b == b;
    } else {
      assert (a + b)[0] == a[0];
      assert (a + b)[1..] == a[1..] + b;
      CountAppend(a[1..], b, p);
    }
  }

  /** What a verified frame's message id does (the if/else chain on message_num). */
  function Dispatch(m: Machine, id: byte): (r: (Machine, Event))
    requires |m.buffer| == BufferSize
  {
    if id == 0x02 then
      var a := DecodeAttitude(m.buffer);
      (m.(messagesReceived := m.messagesReceived + 1, attitude := a, imuOk := true), Orientation(a))
    else if id == 0x03 || id == 0x04 then
      (m, Unsupported(id))
    else if id == 0x05 then
      var r := DecodeAnalogs(m.buffer);
      (m.(messagesReceived := m.messagesReceived + 1, analogs := r, analogsOk := true), AnalogReadings(r))
    else
      (m, InvalidMessageNumber(id))
  }

  /**
   * The outcome of a verified frame: ids 0x02 and 0x05 are decoded from the
   * buffer and counted, 0x03 and 0x04 have no decoder, anything else is
   * reported as invalid; only the decoded reading, its ok flag and
   * imu_messages_received change.
   */
  lemma DispatchOutcome(m: Machine, id: byte)
    requires |m.buffer| == BufferSize
    ensures var r := Dispatch(m, id);
      && r.0.messagesReceived == m.messagesReceived + (if id == 0x02 || id == 0x05 then 1 else 0)
      && (r.1.IsDecoded() <==> (id == 0x02 || id == 0x05))
      && (id == 0x02 ==> r.1 == Orientation(DecodeAttitude(m.buffer)) && r.0.attitude == DecodeAttitude(m.buffer) && r.0.imuOk)
      && (id == 0x05 ==> r.1 == AnalogReadings(DecodeAnalogs(m.buffer)) && r.0.analogs == DecodeAnalogs(m.buffer) && r.0.analogsOk)
      && ((id == 0x03 || id == 0x04) <==> r.1 == Unsupported(id))
      && (r.1.InvalidMessageNumber? <==> !(0x02 <= id <= 0x05))
      && r.0.(attitude := m.attitude, analogs := m.analogs, imuOk := m.imuOk,
              analogsOk := m.analogsOk, messagesReceived := m.messagesReceived) == m
  {
  }

  /** The state after one byte, the per-call message_num, and what was reported. */
  datatype Stepped = Stepped(machine: Machine, messageNum: byte, events: seq<Event>)

  /** ReadPayloadLength: the length byte is checksummed before it is judged. */
  function LengthStep(m: Machine, messageNum: byte, data: byte): (r: Stepped)
    requires Good(m) && m.step == ReadPayloadLength
    ensures Good(r.machine)
  {
    var counted := m.(payloadLength := data, ck := Update(m.ck, data));
    if data > MaxPayload then
      Stepped(counted.(step := ReadHeader1, payloadCounter := 0, ck := Zero,
                       payloadErrors := m.payloadErrors + 1),
              messageNum, [PayloadTooLong(data)])
    else
      Stepped(counted.(step := ReadMessageId), messageNum, [])
  }

  /** ReadPayload: store at the counter, checksum, count; leave once the length is reached. */
  function PayloadStep(m: Machine, messageNum: byte, data: byte): (r: Stepped)
    requires Good(m) && m.step == ReadPayload
    ensures Good(r.machine)
  {
    var counter := m.payloadCounter + 1;
    Stepped(m.(buffer := m.buffer[m.payloadCounter := data], ck := Update(m.ck, data),
               payloadCounter := counter,
               step := if counter >= m.payloadLength then ReadChecksum1 else ReadPayload),
            messageNum, [])
  }

  /**
   * ReadChecksum2: dispatch on message_num when the transmitted checksum
   * matches, count a checksum error otherwise, and restart in either case.
   */
  function ChecksumStep(m: Machine, messageNum: byte, data: byte): (r: Stepped)
    requires Good(m) && m.step == ReadChecksum2
    ensures Good(r.machine)
  {
    var received := m.(receivedCk := Ck(m.receivedCk.a, data));
    var judged :=
      if received.receivedCk == m.ck then Dispatch(received, messageNum)
      else (received.(checksumErrors := m.checksumErrors + 1), ChecksumMismatch);
    Stepped(judged.0.(step := ReadHeader1, payloadCounter := 0, ck := Zero), messageNum, [judged.1])
  }

  /** One byte through the switch on IMU_step. */
  function Next(m: Machine, messageNum: byte, data: byte): (r: Stepped)
    requires Good(m)
    ensures Good(r.machine)
    ensures |r.events| <= 1
  {
    match m.step
    case ReadHeader1 =>
      Stepped(if data == 0x44 then m.(step := ReadHeader2) else m, messageNum, [])
    case ReadHeader2 =>
      Stepped(m.(step := if data == 0x49 then ReadHeader3 else ReadHeader1), messageNum, [])
    case ReadHeader3 =>
      Stepped(m.(step := if data == 0x59 then ReadHeader4 else ReadHeader1), messageNum, [])
    case ReadHeader4 =>
      Stepped(m.(step := if data == 0x64 then ReadPayloadLength else ReadHeader1), messageNum, [])
    case ReadPayloadLength => LengthStep(m, messageNum, data)
    case ReadMessageId =>
      Stepped(m.(ck := Update(m.ck, data), step := ReadPayload), data, [])
    case ReadPayload => PayloadStep(m, messageNum, data)
    case ReadChecksum1 =>
      Stepped(m.(receivedCk := Ck(data, m.receivedCk.b), step := ReadChecksum2), messageNum, [])
    case ReadChecksum2 => ChecksumStep(m, messageNum, data)
  }

  /** One byte grows each counter by exactly the number of events of its kind it reports. */
  lemma NextCounts(m: Machine, messageNum: byte, data: byte, c: Counter)
    requires Good(m)
    ensures var r := Next(m, messageNum, data);
      CounterValue(r.machine, c) == CounterValue(m, c) + Count(r.events, c)
  {
    var r := Next(m, messageNum, data);
    if r.events != [] {
      assert r.events[1..] == [];
    }
    if m.step == ReadChecksum2 {
      var received := m.(receivedCk := Ck(m.receivedCk.a, data));
      if received.receivedCk == m.ck {
        DispatchOutcome(received, messageNum);
      }
    }
  }

  /** The receive loop over a chunk: each byte through Next, events collected in order. */
  function Run(m: Machine, messageNum: byte, s: seq<byte>): (r: Stepped)
    requires Good(m)
    ensures Good(r.machine)
    decreases |s|
  {
    if s == [] then Stepped(m, messageNum, [])
    else
      var first := Next(m, messageNum, s[0]);
      var rest := Run(first.machine, first.messageNum, s[1..]);
      Stepped(rest.machine, rest.messageNum, first.events + rest.events)
  }

  /** Run on a chunk that starts with b: Next on b, then Run on the rest. */
  lemma RunCons(m: Machine, messageNum: byte, b: byte, s: seq<byte>)
    requires Good(m)
    ensures
      var first := Next(m, messageNum, b);
      var rest := Run(first.machine, first.messageNum, s);
      Run(m, messageNum, [b] + s) == Stepped(rest.machine, rest.messageNum, first.events + rest.events)
  {
    assert ([b] + s)[0] == b;
    assert ([b] + s)[1..] == s;
  }

  /** Processing s1 then s2, carrying message_num over, is processing s1 + s2. */
  lemma {:induction false} RunAppend(m: Machine, messageNum: byte, s1: seq<byte>, s2: seq<byte>)
    requires Good(m)
    ensures
      var r1 := Run(m, messageNum, s1);
      var r2 := Run(r1.machine, r1.messageNum, s2);
      Run(m, messageNum, s1 + s2) == Stepped(r2.machine, r2.messageNum, r1.events + r2.events)
    decreases |s1|
  {
    if s1 == [] {
      assert [] + s2 == s2;
    } else {
      var b, tail := s1[0], s1[1..];
      var first := Next(m, messageNum, b);
      var rest1 := Run(first.machine, first.messageNum, tail);
      var r2 := Run(rest1.machine, rest1.messageNum, s2);
      var rest := Run(first.machine, first.messageNum, tail + s2);
      assert Run(m, messageNum, s1) == Stepped(rest1.machine, rest1.messageNum, first.events + rest1.events) by {
        assert s1 == [b] + tail;
        RunCons(m, messageNum, b, tail);
      }
      assert Run(m, messageNum, s1 + s2) == Stepped(rest.machine, rest.messageNum, first.events + rest.events) by {
        assert s1 + s2 == [b] + (tail + s2);
        RunCons(m, messageNum, b, tail + s2);
      }
      assert rest == Stepped(r2.machine, r2.messageNum, rest1.events + r2.events) by {
        RunAppend(first.machine, first.messageNum, tail, s2);
      }
      assert first.events + (rest1.events + r2.events) == (first.events + rest1.events) + r2.events;
    }
  }

  /** Every counter grows by exactly the number of events of its kind. */
  lemma {:induction false} RunCountsEvents(m: Machine, messageNum: byte, s: seq<byte>)
    requires Good(m)
    ensures var r := Run(m, messageNum, s);
      forall c: Counter :: CounterValue(r.machine, c) == CounterValue(m, c) + Count(r.events, c)
    decreases |s|
  {
    if s != [] {
      var first := Next(m, messageNum, s[0]);
      var rest := Run(first.machine, first.messageNum, s[1..]);
      RunCountsEvents(first.machine, first.messageNum, s[1..]);
      forall c: Counter
        ensures CounterValue(rest.machine, c) == CounterValue(m, c) + Count(first.events + rest.events, c)
      {
        NextCounts(m, messageNum, s[0], c);
        CountAppend(first.events, rest.events, c);
      }
    }
  }
}
