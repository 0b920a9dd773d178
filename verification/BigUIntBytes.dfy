/** Conversions between byte strings and big integers (src/security/bignum.cpp:9-54). */
module BigUIntBytes {
  import opened Common
  import opened Arithmetic
  import opened BigUInt
  import opened Octets

  /** Shifting by i bytes is shifting by i % 4 bytes and then by i / 4 limbs. */
  lemma {:induction false} UpBytesByLimbs(x: int, i: nat)
    ensures UpBytes(x, i) == Up(UpBytes(x, i % 4), i / 4)
  {
    if i >= 4 {
      UpBytesByLimbs(x, i - 4);
      assert UpBytes(x, i) == 0x100 * UpBytes(x, i - 1) == 0x1_0000 * UpBytes(x, i - 2);
      assert UpBytes(x, i - 2) == 0x100 * UpBytes(x, i - 3) == 0x1_0000 * UpBytes(x, i - 4);
      assert (i - 4) % 4 == i % 4 && (i - 4) / 4 == i / 4 - 1;
    }
  }

  /** A limb filled up to byte k takes byte k without overlap or overflow. */
  lemma ByteFits(limb: u32, b: byte, k: nat)
    requires k < 4 && limb < UpBytes(1, k)
    ensures 0 <= UpBytes(b, k) && limb + UpBytes(b, k) < TWO_32
    ensures limb + UpBytes(b, k) < UpBytes(1, k + 1)
  {
    if k > 0 { assert UpBytes(b, k) == 0x100 * UpBytes(b, k - 1); }
    if k > 1 { assert UpBytes(b, k - 1) == 0x100 * UpBytes(b, k - 2); }
    if k > 2 { assert UpBytes(b, k - 2) == 0x100 * UpBytes(b, k - 3); }
    if k > 1 { assert UpBytes(1, k - 1) == 0x100 * UpBytes(1, k - 2); }
    if k > 2 { assert UpBytes(1, k - 2) == 0x100 * UpBytes(1, k - 3); }
  }

  /** Byte i from the end, added into its limb, extends the value by that byte. */
  lemma ByteIntoLimb(limbs: seq<u32>, i: nat, b: byte, data: seq<byte>)
    requires i / 4 < |limbs| && i < |data| && b == data[|data| - 1 - i]
    requires 0 <= limbs[i / 4] + UpBytes(b, i % 4) < TWO_32
    requires Value(limbs) == Os2ip(data[|data| - i..])
    ensures Value(limbs[i / 4 := limbs[i / 4] + UpBytes(b, i % 4)]) == Os2ip(data[|data| - (i + 1)..])
  {
    hide Up, UpBytes, Low, Os2ip;
    var limb: u32 := limbs[i / 4] + UpBytes(b, i % 4);
    LowUpdate(limbs, i / 4, limb, |limbs|);
    UpBytesByLimbs(b, i);
    Os2ipPrepend(b, data[|data| - i..]);
    assert data[|data| - (i + 1)..] == [b] + data[|data| - i..];
  }

  method FromBytesBe(data: seq<byte>) returns (r: Big)
    ensures Value(r) == Os2ip(data)
  {
    var start := 0;
    while start < |data| && data[start] == 0
      invariant 0 <= start <= |data|
      invariant Os2ip(data[start..]) == Os2ip(data)
    {
      DropLeadingZero(data[start..]);
      start := start + 1;
    }
    var n := |data| - start;
    if n == 0 { return []; }
    var limbs: seq<u32> := Fill((n + 3) / 4, 0);
    ZeroLow(limbs, |limbs|);
    for i := 0 to n
      invariant |limbs| == (n + 3) / 4
      invariant forall k :: 0 <= k < |limbs| && i <= 4 * k ==> limbs[k] == 0
      invariant i < n ==> limbs[i / 4] < UpBytes(1, i % 4)
      invariant Value(limbs) == Os2ip(data[|data| - i..])
    {
      // the limb is still below this byte's position, so `|=` adds
      var b := data[start + n - 1 - i];
      ByteFits(limbs[i / 4], b, i % 4);
      ByteIntoLimb(limbs, i, b, data);
      limbs := limbs[i / 4 := limbs[i / 4] + UpBytes(b, i % 4)];
      assert (i + 1) % 4 != 0 ==> (i + 1) / 4 == i / 4 && (i + 1) % 4 == i % 4 + 1;
    }
    r := Trim(limbs);
  }

  /** The four bytes of a limb, least significant first. */
  function LimbBytes(limb: u32): (bs: seq<byte>)
    ensures |bs| == 4
  {
    [limb % 0x100, (limb / 0x100) % 0x100, (limb / 0x1_0000) % 0x100, (limb / 0x100_0000) % 0x100]
  }

  lemma LimbBytesValue(limb: u32)
    ensures LittleEndian(LimbBytes(limb)) == limb
  {
    var bs := LimbBytes(limb);
    LittleEndianFour(bs[0], bs[1], bs[2], bs[3]);
    assert bs == [bs[0], bs[1], bs[2], bs[3]];
    LimbDigits(limb);
  }

  lemma LimbDigits(x: nat)
    requires x < TWO_32
    ensures x == x % 0x100 + 0x100 * ((x / 0x100) % 0x100)
              + 0x1_0000 * ((x / 0x1_0000) % 0x100) + 0x100_0000 * ((x / 0x100_0000) % 0x100)
  {
    assert x / 0x1_0000 == x / 0x100 / 0x100;
    assert x / 0x100_0000 == x / 0x1_0000 / 0x100;
  }

  lemma LittleEndianFour(b0: byte, b1: byte, b2: byte, b3: byte)
    ensures LittleEndian([b0, b1, b2, b3]) as int
         == b0 as int + 0x100 * b1 as int + 0x1_0000 * b2 as int + 0x100_0000 * b3 as int
  {
    assert [b0, b1, b2, b3][1..] == [b1, b2, b3] && [b1, b2, b3][1..] == [b2, b3] && [b2, b3][1..] == [b3];
    assert [b3][1..] == [];
    assert LittleEndian([b3]) == b3;
    assert LittleEndian([b2, b3]) as int == b2 as int + 0x100 * b3 as int;
  }

  /** Writes out the limbs, least significant byte first. */
  method LittleEndianBytes(a: seq<u32>) returns (le: seq<byte>)
    ensures |le| == 4 * |a| && LittleEndian(le) == Value(a)
  {
    le := [];
    for i := 0 to |a|
      invariant |le| == 4 * i
      invariant LittleEndian(le) == Low(a, i)
    {
      LimbBytesValue(a[i]);
      LittleEndianAppend(le, LimbBytes(a[i]));
      UpBytesByLimbs(a[i], 4 * i);
      le := le + LimbBytes(a[i]);
    }
  }

  /** The shortest big-endian form, left-padded with zeros to min_len: these three clauses fix the
      result (see `ToBytesIsI2osp`). */
  method ToBytesBe(a: Big, min_len: nat) returns (r: seq<byte>)
    ensures Os2ip(r) == Value(a)
    ensures |r| >= min_len
    ensures |r| > min_len ==> r[0] != 0
  {
    var le := LittleEndianBytes(a);
    var be := Reversed(le);
    ReversedValue(le);
    var first := 0;
    while first + 1 < |be| && be[first] == 0
      invariant 0 <= first <= |be| && (|be| > 0 ==> first < |be|)
      invariant Os2ip(be[first..]) == Value(a)
    {
      DropLeadingZero(be[first..]);
      first := first + 1;
    }
    var trimmed := be[first..];
    if |a| > 0 {
      NormalBounds(a);
      UpMonotone(0, |a| - 1);
      assert |trimmed| == 1 ==> Os2ip(trimmed) == trimmed[0] by { assert |trimmed[..|trimmed| - 1]| == |trimmed| - 1; }
    }
    if |trimmed| == 1 && trimmed[0] == 0 && min_len == 0 { return []; }
    if |trimmed| < min_len {
      Os2ipZeros(min_len - |trimmed|, trimmed);
      return Fill(min_len - |trimmed|, 0) + trimmed;
    }
    return trimmed;
  }

  /** What ToBytesBe promises determines its result: I2OSP at min_len when the value fits, and at the
      shortest sufficient length otherwise. */
  lemma ToBytesIsI2osp(r: seq<byte>, v: nat, min_len: nat)
    requires Os2ip(r) == v && |r| >= min_len && (|r| > min_len ==> r[0] != 0)
    ensures v < Pow(0x100, min_len) ==> r == I2osp(v, min_len)
    ensures v >= Pow(0x100, min_len) ==> |r| > min_len && r == I2osp(v, |r|) && Pow(0x100, |r| - 1) <= v
  {
    I2ospOs2ip(r);
    Os2ipBound(r);
    if |r| > min_len {
      LeadingByteBound(r);
      PowMonotone(0x100, min_len, |r| - 1);
    }
  }

  /** to_bytes_be(from_bytes_be(bs), |bs|) == bs, for all byte strings. */
  method RoundTripBytes(bs: seq<byte>) returns (r: seq<byte>)
    ensures r == bs
  {
    var v := FromBytesBe(bs);
    r := ToBytesBe(v, |bs|);
    Os2ipBound(bs);
    ToBytesIsI2osp(r, Value(v), |bs|);
    I2ospOs2ip(bs);
  }
}
