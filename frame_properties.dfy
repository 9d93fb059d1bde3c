/**
 * What the receive loop does to whole frames and to a stream split into
 * chunks: header synchronisation, length rejection, checksum verdicts,
 * complete frames, and the effect of the per-call message_num.
 */
module ImuFrameProperties {
  import opened ImuChecksum
  import opened ImuPayload
  import opened ImuFrame

  /** A single byte through Run is a single Next. */
  lemma RunOne(m: Machine, messageNum: byte, data: byte)
    requires Good(m)
    ensures Run(m, messageNum, [data]) == Next(m, messageNum, data)
  {
    assert [data][1..] == [];
    assert Next(m, messageNum, data).events + [] == Next(m, messageNum, data).events;
  }

  /** The last byte of a chunk is one Next after the rest. */
  lemma RunLast(m: Machine, messageNum: byte, s: seq<byte>)
    requires Good(m) && |s| > 0
    ensures var before := Run(m, messageNum, s[..|s| - 1]);
      Run(m, messageNum, s).machine == Next(before.machine, before.messageNum, s[|s| - 1]).machine
  {
    var prefix, x := s[..|s| - 1], s[|s| - 1];
    var before := Run(m, messageNum, prefix);
    var after := Run(before.machine, before.messageNum, [x]);
    assert Run(m, messageNum, s).machine == after.machine by {
      assert s == prefix + [x];
      RunAppend(m, messageNum, prefix, [x]);
    }
    assert after == Next(before.machine, before.messageNum, x) by {
      RunOne(before.machine, before.messageNum, x);
    }
  }

  // ---------------------------------------------------------------------------
  // Header synchronisation
  // ---------------------------------------------------------------------------

  /** The synchronisation states in order: ReadHeader1 .. ReadHeader4, then ReadPayloadLength. */
  function SyncState(k: nat): ImuState
    requires k <= 4
  {
    match k
    case 0 => ReadHeader1
    case 1 => ReadHeader2
    case 2 => ReadHeader3
    case 3 => ReadHeader4
    case 4 => ReadPayloadLength
  }

  /** ReadHeader1 skips every byte but 0x44 and changes nothing else. */
  lemma ScanForFirstHeaderByte(m: Machine, messageNum: byte, data: byte)
    requires Good(m) && m.step == ReadHeader1
    ensures Next(m, messageNum, data)
         == Stepped(if data == 0x44 then m.(step := ReadHeader2) else m, messageNum, [])
  {
  }

  /**
   * A chunk without 0x44 passes through ReadHeader1 without a trace: no
   * field changes and nothing is reported.
   */
  lemma {:induction false} SkipJunk(m: Machine, messageNum: byte, s: seq<byte>)
    requires Good(m) && m.step == ReadHeader1 && 0x44 !in s
    ensures Run(m, messageNum, s) == Stepped(m, messageNum, [])
    decreases |s|
  {
    if s != [] {
      ScanForFirstHeaderByte(m, messageNum, s[0]);
      assert 0x44 !in s[1..] by {
        forall i | 0 <= i < |s[1..]| ensures s[1..][i] != 0x44 {
          assert s[1..][i] == s[i + 1];
        }
      }
      SkipJunk(m, messageNum, s[1..]);
    }
  }

  /**
   * In ReadHeader2 .. ReadHeader4 a byte other than the expected magic byte
   * sends the machine back to ReadHeader1 and changes nothing else; that byte
   * is not taken as a new first header byte, even when it is 0x44.
   */
  lemma HeaderMismatchRestarts(m: Machine, messageNum: byte, data: byte, k: nat)
    requires Good(m) && 1 <= k <= 3 && m.step == SyncState(k) && data != Magic[k]
    ensures Next(m, messageNum, data) == Stepped(m.(step := ReadHeader1), messageNum, [])
  {
  }

  /**
   * No backtracking: a stray 0x44 right before a real header makes the
   * machine miss that header. The header's own 0x44 is consumed as the
   * failed second byte, and the rest of the header is skipped from
   * ReadHeader1, so the machine ends where it started.
   */
  lemma StrayStartMissesHeader(m: Machine, messageNum: byte)
    requires Good(m) && m.step == ReadHeader1
    ensures Run(m, messageNum, [0x44] + Magic) == Stepped(m, messageNum, [])
    ensures Run(m, messageNum, [0x44] + Magic).machine.step != ReadPayloadLength
  {
    var m2 := m.(step := ReadHeader2);
    ScanForFirstHeaderByte(m, messageNum, 0x44);
    HeaderMismatchRestarts(m2, messageNum, 0x44, 1);
    assert [0x44] + Magic == [0x44] + ([0x44] + [0x49, 0x59, 0x64]);
    RunCons(m, messageNum, 0x44, Magic);
    RunCons(m2, messageNum, 0x44, [0x49, 0x59, 0x64]);
    SkipJunk(m, messageNum, [0x49, 0x59, 0x64]);
  }

  /** Sync state k+1 is entered only from sync state k on magic byte k. */
  lemma SyncAdvance(m: Machine, messageNum: byte, data: byte, k: nat)
    requires Good(m) && 1 <= k <= 4
    ensures Next(m, messageNum, data).machine.step == SyncState(k)
        <==> m.step == SyncState(k - 1) && data == Magic[k - 1]
  {
  }

  /** The byte that led into sync state k (1..4) was magic byte k-1, taken in sync state k-1. */
  lemma SyncStepBack(m: Machine, messageNum: byte, s: seq<byte>, k: nat)
    requires Good(m) && |s| > 0 && 1 <= k <= 4
    requires Run(m, messageNum, s).machine.step == SyncState(k)
    ensures Run(m, messageNum, s[..|s| - 1]).machine.step == SyncState(k - 1)
    ensures s[|s| - 1] == Magic[k - 1]
  {
    var before := Run(m, messageNum, s[..|s| - 1]);
    RunLast(m, messageNum, s);
    SyncAdvance(before.machine, before.messageNum, s[|s| - 1], k);
  }

  /**
   * From ReadHeader1, the machine is in sync state k (1..4) only right after
   * the first k magic bytes, consumed consecutively from ReadHeader1.
   */
  lemma {:induction false} SyncSuffix(m: Machine, messageNum: byte, s: seq<byte>, k: nat)
    requires Good(m) && m.step == ReadHeader1 && 1 <= k <= 4
    requires Run(m, messageNum, s).machine.step == SyncState(k)
    ensures |s| >= k && s[|s| - k..] == Magic[..k]
    ensures Run(m, messageNum, s[..|s| - k]).machine.step == ReadHeader1
    decreases k
  {
    var n := |s|;
    var s' := s[..n - 1];
    SyncStepBack(m, messageNum, s, k);
    if k == 1 {
      assert s[n - 1..] == [s[n - 1]];
      assert s[..n - 1] == s';
    } else {
      SyncSuffix(m, messageNum, s', k - 1);
      assert |s'| - (k - 1) == n - k;
      assert s'[..n - k] == s[..n - k];
      SuffixSnoc(s, k);
      assert Magic[..k] == Magic[..k - 1] + [Magic[k - 1]];
    }
  }

  /** The last k elements are the last k-1 elements of all but the last, then the last. */
  lemma SuffixSnoc(s: seq<byte>, k: nat)
    requires 2 <= k <= |s|
    ensures s[|s| - k..] == s[..|s| - 1][|s| - k..] + [s[|s| - 1]]
  {
  }

  /**
   * From ReadHeader1, the machine reaches ReadPayloadLength only right after
   * consuming 44 49 59 64 consecutively, starting in ReadHeader1.
   */
  lemma MagicPrecedesLength(m: Machine, messageNum: byte, s: seq<byte>)
    requires Good(m) && m.step == ReadHeader1
    requires Run(m, messageNum, s).machine.step == ReadPayloadLength
    ensures |s| >= 4 && s[|s| - 4..] == Magic
    ensures Run(m, messageNum, s[..|s| - 4]).machine.step == ReadHeader1
  {
    SyncSuffix(m, messageNum, s, 4);
  }

  /** The magic header takes ReadHeader1 to ReadPayloadLength and changes nothing else. */
  lemma HeaderPhase(m: Machine, messageNum: byte)
    requires Good(m) && m.step == ReadHeader1
    ensures Run(m, messageNum, Magic) == Stepped(m.(step := ReadPayloadLength), messageNum, [])
  {
    var m1 := m.(step := ReadHeader2);
    var m2 := m.(step := ReadHeader3);
    var m3 := m.(step := ReadHeader4);
    var m4 := m.(step := ReadPayloadLength);
    assert Magic[1..] == [0x49, 0x59, 0x64];
    assert [0x49, 0x59, 0x64][1..] == [0x59, 0x64];
    assert [0x59, 0x64][1..] == [0x64];
    assert Run(m3, messageNum, [0x64]) == Stepped(m4, messageNum, []) by { RunOne(m3, messageNum, 0x64); }
    assert Run(m2, messageNum, [0x59, 0x64]) == Stepped(m4, messageNum, []);
    assert Run(m1, messageNum, [0x49, 0x59, 0x64]) == Stepped(m4, messageNum, []);
  }

  // ---------------------------------------------------------------------------
  // The length byte
  // ---------------------------------------------------------------------------

  /**
   * A length byte above 28 counts one payload error, resynchronises to
   * ReadHeader1 and otherwise leaves every field as it was except
   * payload_length; the checksum it was added to is discarded.
   */
  lemma LengthByte(m: Machine, messageNum: byte, data: byte)
    requires Good(m) && m.step == ReadPayloadLength
    ensures data > MaxPayload ==>
              Next(m, messageNum, data)
              == Stepped(m.(step := ReadHeader1, payloadLength := data, payloadErrors := m.payloadErrors + 1),
                         messageNum, [PayloadTooLong(data)])
    ensures data <= MaxPayload ==>
              Next(m, messageNum, data)
              == Stepped(m.(step := ReadMessageId, payloadLength := data, ck := ChecksumOf([data])), messageNum, [])
  {
    assert [data][1..] == [];
    assert ChecksumOf([data]) == Accumulate(Update(Zero, data), []);
  }

  /** A header followed by a length byte above 28: one error, back to ReadHeader1. */
  lemma RejectsLongFrame(m: Machine, messageNum: byte, length: byte)
    requires Good(m) && m.step == ReadHeader1 && length > MaxPayload
    ensures Run(m, messageNum, Magic + [length])
         == Stepped(m.(payloadLength := length, payloadErrors := m.payloadErrors + 1),
                    messageNum, [PayloadTooLong(length)])
  {
    HeaderPhase(m, messageNum);
    RunAppend(m, messageNum, Magic, [length]);
    RunOne(m.(step := ReadPayloadLength), messageNum, length);
    LengthByte(m.(step := ReadPayloadLength), messageNum, length);
  }

  // ---------------------------------------------------------------------------
  // The checksum bytes
  // ---------------------------------------------------------------------------

  /**
   * ReadChecksum2: the transmitted pair is compared with the computed one. On
   * a match the id is dispatched and only ids 0x02 and 0x05 count a message;
   * on a mismatch only the checksum error counter moves and nothing is
   * decoded. Either way the machine restarts at ReadHeader1 with the payload
   * counter and the checksum zeroed.
   */
  lemma ChecksumVerdict(m: Machine, messageNum: byte, data: byte)
    requires Good(m) && m.step == ReadChecksum2
    ensures var r := Next(m, messageNum, data);
      var received := Ck(m.receivedCk.a, data);
      && r.machine.step == ReadHeader1 && r.machine.payloadCounter == 0 && r.machine.ck == Zero
      && r.machine.receivedCk == received
      && r.messageNum == messageNum && |r.events| == 1
      && r.machine.buffer == m.buffer && r.machine.payloadLength == m.payloadLength
      && r.machine.payloadErrors == m.payloadErrors
      && r.machine.checksumErrors == m.checksumErrors + (if received == m.ck then 0 else 1)
      && r.machine.messagesReceived
         == m.messagesReceived + (if received == m.ck && (messageNum == 0x02 || messageNum == 0x05) then 1 else 0)
      && (received != m.ck ==>
            r.events == [ChecksumMismatch] && r.machine.attitude == m.attitude
            && r.machine.analogs == m.analogs)
      && (received == m.ck && messageNum == 0x02 ==>
            r.events == [Orientation(DecodeAttitude(m.buffer))] && r.machine.attitude == DecodeAttitude(m.buffer))
      && (received == m.ck && messageNum == 0x05 ==>
            r.events == [AnalogReadings(DecodeAnalogs(m.buffer))] && r.machine.analogs == DecodeAnalogs(m.buffer))
      && (received == m.ck && (messageNum == 0x03 || messageNum == 0x04) ==>
            r.events == [Unsupported(messageNum)])
  {
  }

  // ---------------------------------------------------------------------------
  // Whole frames
  // ---------------------------------------------------------------------------

  /** The bytes of a frame as a sender puts them on the wire. */
  function FrameBytes(length: byte, id: byte, payload: seq<byte>, received: Ck): (s: seq<byte>)
    ensures |s| == |payload| + 8 && s[..4] == Magic && s[4] == length && s[5] == id
  {
    Magic + [length, id] + payload + [received.a, received.b]
  }

  /**
   * What a completed frame does to a machine already holding its payload
   * and transmitted checksum: dispatch when the checksums agree, otherwise
   * count a checksum error.
   */
  function FrameOutcome(stored: Machine, id: byte, computed: Ck): (r: (Machine, Event))
    requires |stored.buffer| == BufferSize
    ensures stored.receivedCk != computed ==> r == (stored.(checksumErrors := stored.checksumErrors + 1), ChecksumMismatch)
    ensures stored.receivedCk == computed ==> r == Dispatch(stored, id)
  {
    if stored.receivedCk == computed then Dispatch(stored, id)
    else (stored.(checksumErrors := stored.checksumErrors + 1), ChecksumMismatch)
  }

  /** The machine once a frame's length and id bytes have been taken. */
  function Head(m: Machine, length: byte, id: byte): (h: Machine)
    requires Good(m) && m.step == ReadHeader1 && length <= MaxPayload
    ensures Good(h) && h.step == ReadPayload && h.payloadCounter == 0
  {
    m.(payloadLength := length, ck := ChecksumOf([length, id]), step := ReadPayload)
  }

  /** Header, length and id: the id becomes message_num, the checksum covers length and id. */
  lemma FrameHead(m: Machine, messageNum: byte, length: byte, id: byte)
    requires Good(m) && m.step == ReadHeader1 && length <= MaxPayload
    ensures Run(m, messageNum, Magic + [length, id]) == Stepped(Head(m, length, id), id, [])
  {
    var m4 := m.(step := ReadPayloadLength);
    var m5 := m.(step := ReadMessageId, payloadLength := length, ck := ChecksumOf([length]));
    HeaderPhase(m, messageNum);
    RunAppend(m, messageNum, Magic, [length, id]);
    LengthByte(m4, messageNum, length);
    assert [length, id][1..] == [id];
    RunOne(m5, messageNum, id);
    assert ChecksumOf([length, id]) == Update(ChecksumOf([length]), id) by {
      assert [length, id] == [length] + [id];
      AccumulateSnoc(Zero, [length], id);
    }
  }

  /**
   * The payload state consumes exactly the bytes still due (at least one),
   * writes them into the buffer from the current counter on, and adds each
   * to the checksum, in order.
   */
  lemma {:induction false} PayloadPhase(m: Machine, messageNum: byte, rest: seq<byte>)
    requires Good(m) && m.step == ReadPayload
    requires |rest| >= 1 && m.payloadCounter + |rest| == PayloadBytes(m.payloadLength)
    ensures var c := m.payloadCounter;
      Run(m, messageNum, rest)
      == Stepped(m.(buffer := m.buffer[..c] + rest + m.buffer[c + |rest|..],
                    ck := Accumulate(m.ck, rest),
                    payloadCounter := PayloadBytes(m.payloadLength),
                    step := ReadChecksum1),
                 messageNum, [])
    decreases |rest|
  {
    var c := m.payloadCounter;
    var x := rest[0];
    var n := Next(m, messageNum, x);
    assert n == PayloadStep(m, messageNum, x);
    var m1 := n.machine;
    assert Accumulate(m.ck, rest) == Accumulate(m1.ck, rest[1..]);
    if |rest| == 1 {
      assert rest[1..] == [];
      assert m.buffer[c := x] == m.buffer[..c] + rest + m.buffer[c + 1..];
    } else {
      PayloadPhase(m1, messageNum, rest[1..]);
      assert m1.buffer[..c + 1] + rest[1..] + m1.buffer[c + 1 + |rest[1..]|..]
          == m.buffer[..c] + rest + m.buffer[c + |rest|..] by {
        Splice(m.buffer, c, rest);
      }
    }
  }

  /** Writing rest[0] at c, then the rest of `rest` after it, writes `rest` at c. */
  lemma Splice(buf: seq<byte>, c: nat, rest: seq<byte>)
    requires |rest| >= 1 && c + |rest| <= |buf|
    ensures buf[c := rest[0]][..c + 1] + rest[1..] + buf[c := rest[0]][c + |rest|..]
         == buf[..c] + rest + buf[c + |rest|..]
  {
    var b1 := buf[c := rest[0]];
    assert b1[..c + 1] == buf[..c] + [rest[0]];
    assert b1[c + |rest|..] == buf[c + |rest|..];
    assert [rest[0]] + rest[1..] == rest;
  }

  /**
   * Payload and checksum bytes, from the payload state with an empty counter:
   * the payload lands at the start of the buffer (the rest of the buffer
   * keeps older bytes) and the frame's outcome is decided with the
   * message_num at hand.
   */
  lemma FrameTail(h: Machine, messageNum: byte, payload: seq<byte>, received: Ck)
    requires Good(h) && h.step == ReadPayload && h.payloadCounter == 0
    requires |payload| == PayloadBytes(h.payloadLength)
    ensures var stored := h.(buffer := payload + h.buffer[|payload|..], receivedCk := received,
                             step := ReadHeader1, payloadCounter := 0, ck := Zero);
      var o := FrameOutcome(stored, messageNum, Accumulate(h.ck, payload));
      Run(h, messageNum, payload + [received.a, received.b]) == Stepped(o.0, messageNum, [o.1])
  {
    var hp := h.(buffer := payload + h.buffer[|payload|..], ck := Accumulate(h.ck, payload),
                 payloadCounter := PayloadBytes(h.payloadLength), step := ReadChecksum1);
    assert Run(h, messageNum, payload) == Stepped(hp, messageNum, []) by {
      PayloadPhase(h, messageNum, payload);
      assert h.buffer[..0] + payload + h.buffer[|payload|..] == payload + h.buffer[|payload|..];
    }
    RunAppend(h, messageNum, payload, [received.a, received.b]);
    ChecksumPhase(hp, messageNum, received);
  }

  /** The two checksum bytes after the payload: the frame's outcome, then ReadHeader1. */
  lemma ChecksumPhase(hp: Machine, messageNum: byte, received: Ck)
    requires Good(hp) && hp.step == ReadChecksum1
    ensures var stored := hp.(receivedCk := received, step := ReadHeader1, payloadCounter := 0, ck := Zero);
      var o := FrameOutcome(stored, messageNum, hp.ck);
      Run(hp, messageNum, [received.a, received.b]) == Stepped(o.0, messageNum, [o.1])
  {
    var h1 := hp.(receivedCk := Ck(received.a, hp.receivedCk.b), step := ReadChecksum2);
    assert Run(hp, messageNum, [received.a, received.b]) == Run(h1, messageNum, [received.b]) by {
      assert Next(hp, messageNum, received.a) == Stepped(h1, messageNum, []);
      assert [received.a, received.b][1..] == [received.b];
    }
    RunOne(h1, messageNum, received.b);
  }

  /**
   * A complete frame, from ReadHeader1: its payload (extended to one byte when
   * the length is 0) is stored at the start of the buffer, and the frame is
   * accepted exactly when the transmitted checksum equals the checksum of
   * length, id and payload bytes, in that order.
   */
  lemma DeliverFrame(m: Machine, messageNum: byte, length: byte, id: byte, payload: seq<byte>, received: Ck)
    requires Good(m) && m.step == ReadHeader1
    requires length <= MaxPayload && |payload| == PayloadBytes(length)
    ensures var stored := m.(payloadLength := length, receivedCk := received,
                             buffer := payload + m.buffer[|payload|..]);
      var o := FrameOutcome(stored, id, ChecksumOf([length, id] + payload));
      Run(m, messageNum, FrameBytes(length, id, payload, received)) == Stepped(o.0, id, [o.1])
  {
    var h := Head(m, length, id);
    FrameHead(m, messageNum, length, id);
    assert FrameBytes(length, id, payload, received) == (Magic + [length, id]) + (payload + [received.a, received.b]);
    RunAppend(m, messageNum, Magic + [length, id], payload + [received.a, received.b]);
    FrameTail(h, id, payload, received);
    AccumulateAppend(Zero, [length, id], payload);
  }

  /**
   * A well-formed orientation frame (id 0x02, correct checksum) yields exactly
   * one Orientation event carrying the frame's raw values over 100, and
   * counts one message; no error counter moves.
   */
  lemma OrientationFrame(m: Machine, messageNum: byte, roll: int, pitch: int, yaw: int, extra: seq<byte>)
    requires Good(m) && m.step == ReadHeader1
    requires IsInt16(roll) && IsInt16(pitch) && IsInt16(yaw) && |extra| <= 22
    ensures var payload := EncodeFields([roll, pitch, yaw]) + extra;
      var r := Run(m, messageNum, FrameBytes(|payload|, 0x02, payload, ChecksumOf([|payload|, 0x02] + payload)));
      && r.events == [Orientation(Attitude(roll as real / 100.0, pitch as real / 100.0, yaw as real / 100.0))]
      && r.machine.messagesReceived == m.messagesReceived + 1
      && r.machine.payloadErrors == m.payloadErrors
      && r.machine.checksumErrors == m.checksumErrors
      && r.machine.step == ReadHeader1
  {
    var payload := EncodeFields([roll, pitch, yaw]) + extra;
    DeliverFrame(m, messageNum, |payload|, 0x02, payload, ChecksumOf([|payload|, 0x02] + payload));
    assert payload + m.buffer[|payload|..] == EncodeFields([roll, pitch, yaw]) + (extra + m.buffer[|payload|..]);
    AttitudeRoundTrip(roll, pitch, yaw, extra + m.buffer[|payload|..]);
  }

  /**
   * Resynchronisation: whatever came before, once the machine is back in
   * ReadHeader1 (after any discarded frame, say) the next frame is handled
   * exactly as on its own.
   */
  lemma Resync(m: Machine, messageNum: byte, junk: seq<byte>, length: byte, id: byte, payload: seq<byte>, received: Ck)
    requires Good(m) && Run(m, messageNum, junk).machine.step == ReadHeader1
    requires length <= MaxPayload && |payload| == PayloadBytes(length)
    ensures var r1 := Run(m, messageNum, junk);
      var stored := r1.machine.(payloadLength := length, receivedCk := received,
                                buffer := payload + r1.machine.buffer[|payload|..]);
      var o := FrameOutcome(stored, id, ChecksumOf([length, id] + payload));
      Run(m, messageNum, junk + FrameBytes(length, id, payload, received))
      == Stepped(o.0, id, r1.events + [o.1])
  {
    var r1 := Run(m, messageNum, junk);
    RunAppend(m, messageNum, junk, FrameBytes(length, id, payload, received));
    DeliverFrame(r1.machine, r1.messageNum, length, id, payload, received);
  }

  // ---------------------------------------------------------------------------
  // Chunks and the per-call message_num
  // ---------------------------------------------------------------------------

  /**
   * Before a frame's id byte is read, the incoming message_num is never
   * looked at: it is overwritten before ReadChecksum2 can use it.
   */
  lemma {:induction false} MessageNumIrrelevant(m: Machine, n1: byte, n2: byte, s: seq<byte>)
    requires Good(m) && !m.step.AfterMessageId()
    ensures Run(m, n1, s).machine == Run(m, n2, s).machine
    ensures Run(m, n1, s).events == Run(m, n2, s).events
    decreases |s|
  {
    if s != [] {
      var a := Next(m, n1, s[0]);
      var b := Next(m, n2, s[0]);
      if m.step != ReadMessageId {
        assert a.machine == b.machine && a.events == b.events;
        MessageNumIrrelevant(a.machine, a.messageNum, b.messageNum, s[1..]);
      } else {
        assert a == b;
      }
    }
  }

  /**
   * Feeding s1 and then s2 as two calls (message_num starting at 0 in each)
   * leaves the same state and reports the same events as feeding s1 + s2
   * in one call, provided s1 does not end between a frame's id byte and its
   * last checksum byte.
   */
  lemma FeedInChunks(m: Machine, s1: seq<byte>, s2: seq<byte>)
    requires Good(m) && !Run(m, 0, s1).machine.step.AfterMessageId()
    ensures var r1 := Run(m, 0, s1);
      var r2 := Run(r1.machine, 0, s2);
      Run(m, 0, s1 + s2).machine == r2.machine && Run(m, 0, s1 + s2).events == r1.events + r2.events
  {
    var r1 := Run(m, 0, s1);
    RunAppend(m, 0, s1, s2);
    MessageNumIrrelevant(r1.machine, r1.messageNum, 0, s2);
  }

  /**
   * A sample orientation frame: length 6, id 0x02, raw roll 100, pitch -200
   * and yaw 0, and its checksum.
   */
  const ExamplePayload: seq<byte> := [0x00, 0x64, 0xFF, 0x38, 0x00, 0x00]
  const ExampleCk: Ck := Ck(0xA3, 0xD6)

  lemma ExampleChecksum()
    ensures ChecksumOf([6, 0x02] + ExamplePayload) == ExampleCk
  {
    var s := [6, 0x02] + ExamplePayload;
    assert s == [6, 2, 0, 100, 255, 56, 0, 0];
    // One Update per byte, with the running pair written out.
    assert Accumulate(Ck(0, 0), [6, 2, 0, 100, 255, 56, 0, 0]) == Accumulate(Ck(6, 6), [2, 0, 100, 255, 56, 0, 0]) by {
      assert [6, 2, 0, 100, 255, 56, 0, 0][1..] == [2, 0, 100, 255, 56, 0, 0];
      UpdateWraps(Ck(0, 0), 6);
      assert Update(Ck(0, 0), 6) == Ck(6, 6);
    }
    assert Accumulate(Ck(6, 6), [2, 0, 100, 255, 56, 0, 0]) == Accumulate(Ck(8, 14), [0, 100, 255, 56, 0, 0]) by {
      assert [2, 0, 100, 255, 56, 0, 0][1..] == [0, 100, 255, 56, 0, 0];
      UpdateWraps(Ck(6, 6), 2);
      assert Update(Ck(6, 6), 2) == Ck(8, 14);
    }
    assert Accumulate(Ck(8, 14), [0, 100, 255, 56, 0, 0]) == Accumulate(Ck(8, 22), [100, 255, 56, 0, 0]) by {
      assert [0, 100, 255, 56, 0, 0][1..] == [100, 255, 56, 0, 0];
      UpdateWraps(Ck(8, 14), 0);
      assert Update(Ck(8, 14), 0) == Ck(8, 22);
    }
    assert Accumulate(Ck(8, 22), [100, 255, 56, 0, 0]) == Accumulate(Ck(108, 130), [255, 56, 0, 0]) by {
      assert [100, 255, 56, 0, 0][1..] == [255, 56, 0, 0];
      UpdateWraps(Ck(8, 22), 100);
      assert Update(Ck(8, 22), 100) == Ck(108, 130);
    }
    assert Accumulate(Ck(108, 130), [255, 56, 0, 0]) == Accumulate(Ck(107, 237), [56, 0, 0]) by {
      assert [255, 56, 0, 0][1..] == [56, 0, 0];
      UpdateWraps(Ck(108, 130), 255);
      assert Update(Ck(108, 130), 255) == Ck(107, 237);
    }
    assert Accumulate(Ck(107, 237), [56, 0, 0]) == Accumulate(Ck(163, 144), [0, 0]) by {
      assert [56, 0, 0][1..] == [0, 0];
      UpdateWraps(Ck(107, 237), 56);
      assert Update(Ck(107, 237), 56) == Ck(163, 144);
    }
    assert Accumulate(Ck(163, 144), [0, 0]) == Accumulate(Ck(163, 51), [0]) by {
      assert [0, 0][1..] == [0];
      UpdateWraps(Ck(163, 144), 0);
      assert Update(Ck(163, 144), 0) == Ck(163, 51);
    }
    assert Accumulate(Ck(163, 51), [0]) == Accumulate(Ck(163, 214), []) by {
      assert [0][1..] == [];
      UpdateWraps(Ck(163, 51), 0);
      assert Update(Ck(163, 51), 0) == Ck(163, 214);
    }
  }

  /**
   * The sample orientation frame (raw roll 100, pitch -200, yaw 0) decodes
   * to roll 1.0, pitch -2.0, yaw 0.0 when it arrives in one call, but when
   * the call boundary falls right after its id byte the second call dispatches on message_num 0 and
   * reports an invalid message number instead, counting no message.
   */
  lemma SplitAfterIdLosesFrame()
    ensures var whole := Run(Initial(), 0, FrameBytes(6, 0x02, ExamplePayload, ExampleCk));
      whole.events == [Orientation(Attitude(1.0, -2.0, 0.0))] && whole.machine.messagesReceived == 1
    ensures var r1 := Run(Initial(), 0, Magic + [6, 0x02]);
      var r2 := Run(r1.machine, 0, ExamplePayload + [ExampleCk.a, ExampleCk.b]);
      r1.events + r2.events == [InvalidMessageNumber(0)] && r2.machine.messagesReceived == 0
  {
    var m := Initial();
    ExampleChecksum();
    DeliverFrame(m, 0, 6, 0x02, ExamplePayload, ExampleCk);
    var buf := ExamplePayload + m.buffer[6..];
    assert Field(buf, 0) == 100 && Field(buf, 1) == -200 && Field(buf, 2) == 0;
    FrameHead(m, 0, 6, 0x02);
    var h := Head(m, 6, 0x02);
    FrameTail(h, 0, ExamplePayload, ExampleCk);
    assert h.ck == ChecksumOf([6, 0x02]);
    AccumulateAppend(Zero, [6, 0x02], ExamplePayload);
  }
}
