/**
 * The running checksum of the Razor IMU frame format: two 8-bit accumulators,
 * the second summing the successive values of the first (Fletcher style), both
 * wrapping around modulo 256.
 */
module ImuChecksum {

  /** An unsigned 8-bit value, as the C# `byte` type. */
  type byte = x: int | 0 <= x < 256

  /** The pair (ck_a, ck_b). */
  datatype Ck = Ck(a: byte, b: byte)

  const Zero: Ck := Ck(0, 0)

  /**
   * One checksum step: `ck_a += data; ck_b += ck_a;` on C# bytes. Both sums
   * wrap around past 255 instead of saturating, and ck_b takes the NEW ck_a.
   */
  function Update(ck: Ck, data: byte): Ck
  {
    var a := (ck.a + data) % 256;
    Ck(a, (ck.b + a) % 256)
  }

  /** Both accumulators wrap: a sum of 256 or more loses exactly 256. */
  lemma UpdateWraps(ck: Ck, data: byte)
    ensures var r := Update(ck, data);
      && (ck.a + data < 256 ==> r.a == ck.a + data)
      && (ck.a + data >= 256 ==> r.a == ck.a + data - 256)
      && (ck.b + r.a < 256 ==> r.b == ck.b + r.a)
      && (ck.b + r.a >= 256 ==> r.b == ck.b + r.a - 256)
  {
  }

  /** The accumulators after feeding the bytes of `s`, first to last, starting from `ck`. */
  function Accumulate(ck: Ck, s: seq<byte>): Ck
    decreases |s|
  {
    if s == [] then ck else Accumulate(Update(ck, s[0]), s[1..])
  }

  /** The checksum of a frame's checked bytes, starting from (0, 0). */
  function ChecksumOf(s: seq<byte>): Ck
  {
    Accumulate(Zero, s)
  }

  /** The plain sum of the bytes. */
  function Sum(s: seq<byte>): nat
    decreases |s|
  {
    if s == [] then 0 else s[0] + Sum(s[1..])
  }

  /** The sum of the bytes, the i-th (from 0) weighted by |s| - i. */
  function WeightedSum(s: seq<byte>): nat
    decreases |s|
  {
    if s == [] then 0 else |s| * s[0] + WeightedSum(s[1..])
  }

  /** Feeding one more byte at the end is one more Update. */
  lemma {:induction false} AccumulateSnoc(ck: Ck, s: seq<byte>, x: byte)
    ensures Accumulate(ck, s + [x]) == Update(Accumulate(ck, s), x)
    decreases |s|
  {
    if s == [] {
      assert [] + [x] == [x];
      assert [x][1..] == [];
    } else {
      assert (s + [x])[0] == s[0];
      assert (s + [x])[1..] == s[1..] + [x];
      AccumulateSnoc(Update(ck, s[0]), s[1..], x);
    }
  }

  /** Feeding two chunks one after the other is feeding their concatenation. */
  lemma {:induction false} AccumulateAppend(ck: Ck, s1: seq<byte>, s2: seq<byte>)
    ensures Accumulate(ck, s1 + s2) == Accumulate(Accumulate(ck, s1), s2)
    decreases |s1|
  {
    if s1 == [] {
      assert [] + s2 == s2;
    } else {
      assert (s1 + s2)[0] == s1[0];
      assert (s1 + s2)[1..] == s1[1..] + s2;
      AccumulateAppend(Update(ck, s1[0]), s1[1..], s2);
    }
  }

  /** Adding a multiple of 256 does not change a residue modulo 256. */
  lemma ModCongruentAdd(x: int, y: int, z: int)
    requires y % 256 == z % 256
    ensures (x + y) % 256 == (x + z) % 256
  {
    var qy, qz := y / 256, z / 256;
    assert y == 256 * qy + y % 256;
    assert z == 256 * qz + z % 256;
    assert x + y == (x + z) + 256 * (qy - qz);
  }

  lemma MulMod(k: nat, r: int)
    ensures (k * (r % 256)) % 256 == (k * r) % 256
  {
    var q := r / 256;
    assert r == 256 * q + r % 256;
    assert k * r == 256 * (k * q) + k * (r % 256);
  }

  /** The arithmetic of one step of AccumulateClosedForm, on plain integers. */
  lemma ClosedFormStep(a: int, b: int, x: int, n: nat, sumRest: int, weightedRest: int, a1: int, b1: int)
    requires a1 == (a + x) % 256 && b1 == (b + a1) % 256
    ensures (a1 + sumRest) % 256 == (a + (x + sumRest)) % 256
    ensures (b1 + n * a1 + weightedRest) % 256 == (b + (n + 1) * a + ((n + 1) * x + weightedRest)) % 256
  {
    ModCongruentAdd(sumRest, a1, a + x);
    ModCongruentAdd(n * a1 + weightedRest, b1, b + a1);
    assert b + a1 + n * a1 == b + (n + 1) * a1;
    MulMod(n + 1, a + x);
    ModCongruentAdd(b + weightedRest, (n + 1) * a1, (n + 1) * (a + x));
    assert (n + 1) * (a + x) == (n + 1) * a + (n + 1) * x;
  }

  /**
   * Closed form of the accumulators: ck_a is the byte sum and ck_b the
   * position-weighted byte sum (each byte counted once for every accumulator
   * step from its own onwards), both modulo 256.
   */
  lemma {:induction false} AccumulateClosedForm(ck: Ck, s: seq<byte>)
    ensures Accumulate(ck, s).a == (ck.a + Sum(s)) % 256
    ensures Accumulate(ck, s).b == (ck.b + |s| * ck.a + WeightedSum(s)) % 256
    decreases |s|
  {
    if s != [] {
      var ck1 := Update(ck, s[0]);
      AccumulateClosedForm(ck1, s[1..]);
      ClosedFormStep(ck.a, ck.b, s[0], |s[1..]|, Sum(s[1..]), WeightedSum(s[1..]), ck1.a, ck1.b);
    }
  }

  /** From (0, 0): ck_a = sum of the bytes, ck_b = weighted sum, modulo 256. */
  lemma ChecksumClosedForm(s: seq<byte>)
    ensures ChecksumOf(s) == Ck(Sum(s) % 256, WeightedSum(s) % 256)
  {
    AccumulateClosedForm(Zero, s);
  }
}
