/**
 * The payload decoders of the Razor IMU protocol: signed big-endian 16-bit
 * fields read from the fixed 30-byte payload buffer.
 */
module ImuPayload {
  import opened ImuChecksum

  /**
   * One decoded field: `(short)((hi << 8) | lo)` in C#. The result is the
   * unique signed 16-bit value congruent to the unsigned word hi:lo modulo
   * 2^16 (two's complement), negative exactly when the top bit of `hi` is set.
   */
  function Int16(hi: byte, lo: byte): (v: int)
    ensures -32768 <= v <= 32767
    ensures v < 0 <==> hi >= 128
  {
    // `hi << 8` has zero low bits, so `| lo` is `+ lo`.
    var word := hi * 256 + lo;
    // The cast to short keeps the low 16 bits and reads bit 15 as the sign.
    if word < 0x8000 then word else word - 0x10000
  }

  /** The decoded field is congruent to the unsigned word hi:lo modulo 2^16. */
  lemma Int16Congruent(hi: byte, lo: byte)
    ensures (Int16(hi, lo) - (hi * 256 + lo)) % 65536 == 0
  {
  }

  /** The two bytes a sender puts on the wire for a signed 16-bit value. */
  function SplitInt16(v: int): (r: (byte, byte))
    requires -32768 <= v <= 32767
    ensures Int16(r.0, r.1) == v
  {
    var u := if v < 0 then v + 65536 else v;
    (u / 256, u % 256)
  }

  /** Splitting a decoded field gives back its two bytes. */
  lemma SplitOfInt16(hi: byte, lo: byte)
    ensures SplitInt16(Int16(hi, lo)) == (hi, lo)
  {
  }

  /** Field k of a buffer: the int16 at offsets 2k (high byte) and 2k+1. */
  function Field(buf: seq<byte>, k: nat): (v: int)
    requires 2 * k + 1 < |buf|
    ensures -32768 <= v <= 32767
  {
    Int16(buf[2 * k], buf[2 * k + 1])
  }

  /** Roll, pitch and yaw (ground course), in degrees. */
  datatype Attitude = Attitude(roll: real, pitch: real, yaw: real)

  /** Raw analog x, y, z and accelerometer x, y, z readings. */
  datatype Analogs = Analogs(x: int, y: int, z: int, accX: int, accY: int, accZ: int)

  /**
   * Message 0x02: fields 0, 1, 2 scaled by 1/100. Only offsets 0 to 5 are
   * read, whatever the frame's payload length was.
   */
  function DecodeAttitude(buf: seq<byte>): (r: Attitude)
    requires |buf| >= 6
    ensures -327.68 <= r.roll <= 327.67 && -327.68 <= r.pitch <= 327.67 && -327.68 <= r.yaw <= 327.67
  {
    Attitude(Field(buf, 0) as real / 100.0, Field(buf, 1) as real / 100.0, Field(buf, 2) as real / 100.0)
  }

  /** Message 0x05: fields 0 to 5 unscaled; only offsets 0 to 11 are read. */
  function DecodeAnalogs(buf: seq<byte>): (r: Analogs)
    requires |buf| >= 12
    ensures IsInt16(r.x) && IsInt16(r.y) && IsInt16(r.z)
    ensures IsInt16(r.accX) && IsInt16(r.accY) && IsInt16(r.accZ)
  {
    Analogs(Field(buf, 0), Field(buf, 1), Field(buf, 2), Field(buf, 3), Field(buf, 4), Field(buf, 5))
  }

  /** A value fits a signed 16-bit field. */
  predicate IsInt16(v: int)
  {
    -32768 <= v <= 32767
  }

  /** The wire bytes of a sequence of int16 fields, big-endian, in order. */
  function EncodeFields(vs: seq<int>): (r: seq<byte>)
    requires forall i | 0 <= i < |vs| :: IsInt16(vs[i])
    ensures |r| == 2 * |vs|
    decreases |vs|
  {
    if vs == [] then [] else
      assert IsInt16(vs[0]);
      var hl := SplitInt16(vs[0]);
      [hl.0, hl.1] + EncodeFields(vs[1..])
  }

  /** Every field of an encoded sequence decodes to the value put there. */
  lemma {:induction false} FieldOfEncoded(vs: seq<int>, rest: seq<byte>, k: nat)
    requires forall i | 0 <= i < |vs| :: IsInt16(vs[i])
    requires k < |vs|
    ensures Field(EncodeFields(vs) + rest, k) == vs[k]
    decreases |vs|
  {
    var hl := SplitInt16(vs[0]);
    assert EncodeFields(vs) + rest == [hl.0, hl.1] + (EncodeFields(vs[1..]) + rest);
    if k > 0 {
      FieldOfEncoded(vs[1..], rest, k - 1);
    }
  }

  /** An attitude frame carrying raw roll, pitch and yaw decodes to them over 100. */
  lemma AttitudeRoundTrip(roll: int, pitch: int, yaw: int, rest: seq<byte>)
    requires IsInt16(roll) && IsInt16(pitch) && IsInt16(yaw)
    ensures DecodeAttitude(EncodeFields([roll, pitch, yaw]) + rest)
         == Attitude(roll as real / 100.0, pitch as real / 100.0, yaw as real / 100.0)
  {
    var vs := [roll, pitch, yaw];
    FieldOfEncoded(vs, rest, 0);
    FieldOfEncoded(vs, rest, 1);
    FieldOfEncoded(vs, rest, 2);
  }

  /** An analog frame carrying six raw readings decodes to them unchanged. */
  lemma AnalogsRoundTrip(r: Analogs, rest: seq<byte>)
    requires forall v | v in [r.x, r.y, r.z, r.accX, r.accY, r.accZ] :: IsInt16(v)
    ensures DecodeAnalogs(EncodeFields([r.x, r.y, r.z, r.accX, r.accY, r.accZ]) + rest) == r
  {
    var vs := [r.x, r.y, r.z, r.accX, r.accY, r.accZ];
    assert forall i | 0 <= i < |vs| :: IsInt16(vs[i]) by {
      forall i | 0 <= i < |vs| ensures IsInt16(vs[i]) { assert vs[i] in vs; }
    }
    FieldOfEncoded(vs, rest, 0);
    FieldOfEncoded(vs, rest, 1);
    FieldOfEncoded(vs, rest, 2);
    FieldOfEncoded(vs, rest, 3);
    FieldOfEncoded(vs, rest, 4);
    FieldOfEncoded(vs, rest, 5);
  }
}
