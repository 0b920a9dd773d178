/** Big-endian octet strings and the integers they denote: OS2IP and I2OSP, sections 4.1 and 4.2 of
    RFC 8017. These are the reference the byte conversions of the big integers are proved against. */
module Octets {
  import opened Common
  import opened Arithmetic

  ghost function Os2ip(bs: seq<byte>): nat {
    if |bs| == 0 then 0 else 0x100 * Os2ip(bs[..|bs| - 1]) + bs[|bs| - 1]
  }

  ghost function I2osp(x: nat, n: nat): (bs: seq<byte>)
    ensures |bs| == n
  {
    if n == 0 then [] else I2osp(x / 0x100, n - 1) + [x % 0x100]
  }

  lemma {:induction false} I2ospOs2ip(bs: seq<byte>)
    ensures I2osp(Os2ip(bs), |bs|) == bs
  {
    if |bs| > 0 {
      I2ospOs2ip(bs[..|bs| - 1]);
      assert bs == bs[..|bs| - 1] + [bs[|bs| - 1]];
    }
  }

  lemma {:induction false} Os2ipI2osp(x: nat, n: nat)
    requires x < Pow(0x100, n)
    ensures Os2ip(I2osp(x, n)) == x
  {
    if n > 0 {
      assert x / 0x100 < Pow(0x100, n - 1);
      Os2ipI2osp(x / 0x100, n - 1);
      assert I2osp(x, n)[..n - 1] == I2osp(x / 0x100, n - 1);
    }
  }

  /** x shifted left by n bytes. */
  function UpBytes(x: int, n: nat): int {
    if n == 0 then x else 0x100 * UpBytes(x, n - 1)
  }

  lemma {:induction false} UpBytesIsPow(x: int, n: nat)
    ensures UpBytes(x, n) == x * Pow(0x100, n)
  {
    if n > 0 {
      UpBytesIsPow(x, n - 1);
      MulCommute3(x, 0x100, Pow(0x100, n - 1));
    }
  }

  lemma {:induction false} UpBytesLess(x: int, y: int, n: nat)
    ensures x <= y <==> UpBytes(x, n) <= UpBytes(y, n)
  {
    if n > 0 { UpBytesLess(x, y, n - 1); }
  }

  lemma {:induction false} Os2ipBound(bs: seq<byte>)
    ensures Os2ip(bs) < Pow(0x100, |bs|)
  {
    if |bs| > 0 { Os2ipBound(bs[..|bs| - 1]); }  // one more octet: 256 times the weight
  }

  /** A byte put in front counts at the weight of everything behind it. */
  lemma {:induction false} Os2ipPrepend(b: byte, bs: seq<byte>)
    ensures Os2ip([b] + bs) == UpBytes(b, |bs|) + Os2ip(bs)
  {
    if |bs| == 0 {
      assert [b] + bs == [b];
      assert [b][..0] == [];
    } else {
      var front := bs[..|bs| - 1];
      Os2ipPrepend(b, front);
      assert ([b] + bs)[..|bs|] == [b] + front;
    }
  }

  lemma {:induction false} Os2ipZeros(n: nat, bs: seq<byte>)
    ensures Os2ip(Fill(n, 0 as byte) + bs) == Os2ip(bs)
  {
    if n > 0 {
      UpBytesIsPow(0, n - 1 + |bs|);
      Os2ipPrepend(0, Fill(n - 1, 0 as byte) + bs);
      assert Fill(n, 0 as byte) + bs == [0] + (Fill(n - 1, 0 as byte) + bs);
      Os2ipZeros(n - 1, bs);
    } else {
      assert Fill(n, 0 as byte) + bs == bs;
    }
  }

  /** A string with no superfluous leading zero has the shortest length for its value. */
  lemma LeadingByteBound(bs: seq<byte>)
    requires |bs| > 0 && bs[0] != 0
    ensures Pow(0x100, |bs| - 1) <= Os2ip(bs)
  {
    Os2ipPrepend(bs[0], bs[1..]);
    assert bs == [bs[0]] + bs[1..];
    UpBytesLess(1, bs[0], |bs| - 1);
    UpBytesIsPow(1, |bs| - 1);
  }

  lemma DropLeadingZero(bs: seq<byte>)
    requires |bs| > 0 && bs[0] == 0
    ensures Os2ip(bs[1..]) == Os2ip(bs)
  {
    Os2ipPrepend(0, bs[1..]);
    UpBytesIsPow(0, |bs| - 1);
    assert bs == [0] + bs[1..];
  }

  // ---- Little-endian strings, the order in which limbs are written out ----

  ghost function LittleEndian(bs: seq<byte>): nat {
    if |bs| == 0 then 0 else bs[0] + 0x100 * LittleEndian(bs[1..])
  }

  lemma {:induction false} LittleEndianAppend(x: seq<byte>, y: seq<byte>)
    ensures LittleEndian(x + y) == LittleEndian(x) + UpBytes(LittleEndian(y), |x|)
  {
    if |x| == 0 {
      assert x + y == y;
    } else {
      LittleEndianAppend(x[1..], y);
      assert (x + y)[1..] == x[1..] + y;
    }
  }

  function Reversed(bs: seq<byte>): (r: seq<byte>)
    ensures |r| == |bs|
    ensures forall i :: 0 <= i < |bs| ==> r[i] == bs[|bs| - 1 - i]
  {
    if |bs| == 0 then [] else Reversed(bs[1..]) + [bs[0]]
  }

  lemma {:induction false} ReversedValue(bs: seq<byte>)
    ensures Os2ip(Reversed(bs)) == LittleEndian(bs)
  {
    if |bs| > 0 {
      ReversedValue(bs[1..]);
      assert Reversed(bs)[..|bs| - 1] == Reversed(bs[1..]);
    }
  }
}
