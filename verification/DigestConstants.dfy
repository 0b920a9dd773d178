/** The constants of the three digests against the standards that derive them. */
module DigestConstants {
  import opened Common
  import opened Arithmetic
  import opened Octets
  import opened MerkleDamgard
  import Sha = ShaDigest
  import Md5 = Md5Digest

  // ---- Initial values ----

  const PRIMES: seq<nat> := [2, 3, 5, 7, 11, 13, 17, 19, 23, 29, 31, 37, 41, 43, 47, 53]

  /** x is the integer part of the square root of p * unit * unit. */
  predicate IsRoot(x: nat, p: nat, unit: nat) {
    x * x <= p * unit * unit < (x + 1) * (x + 1)
  }

  /** word is the fractional part of the square root of p, in units of 1 / unit, rounded down. */
  ghost predicate IsRootFraction(word: nat, p: nat, unit: nat) {
    word < unit && exists whole: nat :: IsRoot(whole * unit + word, p, unit)
  }

  lemma RootFraction(word: nat, p: nat, unit: nat, whole: nat)
    requires word < unit && IsRoot(whole * unit + word, p, unit)
    ensures IsRootFraction(word, p, unit)
  {}

  /** Section 5.3.3 of FIPS 180-4: the first 32 bits of the fractional parts of the square roots of the first eight
      primes. */
  lemma Sha256InitialValue(compress: Sha.Compression, i: nat)
    requires i < 8
    ensures |Sha.Sha256(compress).iv| == 8
    ensures IsRootFraction(Sha.Sha256(compress).iv[i], PRIMES[i], 0x1_0000_0000)
  {
    RootFraction(Sha.Sha256(compress).iv[i], PRIMES[i], 0x1_0000_0000, [1, 1, 2, 2, 3, 3, 4, 4][i]);
  }

  /** Section 5.3.4: the first 64 bits of those of the ninth to sixteenth primes. */
  lemma Sha384InitialValue(compress: Sha.Compression, i: nat)
    requires i < 8
    ensures |Sha.Sha384(compress).iv| == 8
    ensures IsRootFraction(Sha.Sha384(compress).iv[i], PRIMES[8 + i], 0x1_0000_0000_0000_0000)
  {
    RootFraction(Sha.Sha384(compress).iv[i], PRIMES[8 + i], 0x1_0000_0000_0000_0000, [4, 5, 5, 6, 6, 6, 6, 7][i]);
  }

  lemma Md5Words()
    ensures Md5.LeOctets(0x67452301, 4) == [0x01, 0x23, 0x45, 0x67]
    ensures Md5.LeOctets(0xefcdab89, 4) == [0x89, 0xab, 0xcd, 0xef]
    ensures Md5.LeOctets(0x98badcfe, 4) == [0xfe, 0xdc, 0xba, 0x98]
    ensures Md5.LeOctets(0x10325476, 4) == [0x76, 0x54, 0x32, 0x10]
  {
    Md5.LeOctetsFour(0x67452301);
    Md5.LeOctetsFour(0xefcdab89);
    Md5.LeOctetsFour(0x98badcfe);
    Md5.LeOctetsFour(0x10325476);
    hide Md5.LeOctets;
  }

  lemma FourWords(a: nat, b: nat, c: nat, d: nat)
    ensures Md5.Output([a, b, c, d], 4) ==
            Md5.LeOctets(a, 4) + Md5.LeOctets(b, 4) + Md5.LeOctets(c, 4) + Md5.LeOctets(d, 4)
  {
    hide Md5.LeOctets;
    var state := [a, b, c, d];
    OneWord(state, 3);
    OneWord(state, 2);
    OneWord(state, 1);
    OneWord(state, 0);
    hide Md5.Output;
    assert Md5.Output(state, 0) + Md5.LeOctets(a, 4) == Md5.LeOctets(a, 4) by { assert Md5.Output(state, 0) == []; }
  }

  lemma OneWord(state: seq<nat>, i: nat)
    requires i < |state|
    ensures Md5.Output(state, i + 1) == Md5.Output(state, i) + Md5.LeOctets(state[i], 4)
    ensures i == 0 ==> Md5.Output(state, i) == []
  {
    hide Md5.LeOctets;
  }

  /** Section 3.3 of RFC 1321: the digits counted up and down, low-order octet first. */
  lemma Md5InitialValue()
    ensures Md5.Output(Md5.IV, 4) ==
            [0x01, 0x23, 0x45, 0x67, 0x89, 0xab, 0xcd, 0xef, 0xfe, 0xdc, 0xba, 0x98, 0x76, 0x54, 0x32, 0x10]
  {
    Md5Words();
    FourWords(0x67452301, 0xefcdab89, 0x98badcfe, 0x10325476);
    hide Md5.LeOctets, Md5.Output;
  }

  // ---- Sizes ----

  lemma {:induction false} OutputLength(a: Sha.Algorithm, state: seq<nat>, words: nat)
    ensures |Sha.Output(a, state, words)| == words * a.wordBytes
  {
    if words > 0 {
      OutputLength(a, state, words - 1);
      MulDistributes(words - 1, 1, a.wordBytes);
    }
  }

  lemma {:induction false} Md5OutputLength(state: seq<nat>, words: nat)
    ensures |Md5.Output(state, words)| == 4 * words
  {
    if words > 0 { Md5OutputLength(state, words - 1); }
  }

  /** Digests of 256, 384 and 128 bits. */
  lemma DigestLengths(c256: Sha.Compression, c384: Sha.Compression, c5: Md5.Compression, m: seq<byte>)
    ensures |Sha.DigestOf(Sha.Sha256(c256), m)| == 32
    ensures |Sha.DigestOf(Sha.Sha384(c384), m)| == 48
    ensures |Md5.DigestOf(c5, m)| == 16
  {
    hide Fold, Chunks, Sha.Pad, Md5.Pad;
    OutputLength(Sha.Sha256(c256), Fold(c256, Sha.Sha256(c256).iv, Chunks(Sha.Pad(Sha.Sha256(c256), m), 64)), 8);
    OutputLength(Sha.Sha384(c384), Fold(c384, Sha.Sha384(c384).iv, Chunks(Sha.Pad(Sha.Sha384(c384), m), 128)), 6);
    Md5OutputLength(Fold(c5, Md5.IV, Chunks(Md5.Pad(m), 64)), 4);
  }

  /** Sections 3.1 and 3.2 of RFC 1321: blocks of 512 bits that end in the bit length modulo 2^64, low-order octet
      first. */
  lemma Md5PaddedSize(m: seq<byte>)
    ensures var p := Md5.Pad(m);
            && |p| % 64 == 0 && |p| >= 8 && m + [0x80] <= p
            && LittleEndian(p[|p| - 8..]) == (8 * |m|) % TWO_64
  {
    Md5.PadLength(m);
    var bits := (8 * |m|) % TWO_64;
    var p := Md5.Pad(m);
    assert p[|p| - 8..] == Md5.LeOctets(bits, 8);
    Sha.EightOctets();
    LeOctetsValue(bits, 8);
    hide ZeroCount, Md5.LeOctets;
  }

  lemma {:induction false} LeOctetsValue(x: nat, n: nat)
    requires x < Pow(0x100, n)
    ensures LittleEndian(Md5.LeOctets(x, n)) == x
  {
    if n > 0 {
      assert x / 0x100 < Pow(0x100, n - 1);
      LeOctetsValue(x / 0x100, n - 1);
    }
  }

  lemma PaddedSize(a: Sha.Algorithm, m: seq<byte>)
    requires a.Valid() && 8 * |m| < TWO_64
    ensures var p := Sha.Pad(a, m);
            && |p| % a.block == 0 && |p| >= a.lengthField && m + [0x80] <= p
            && p[|p| - a.lengthField..] == I2osp(8 * |m|, a.lengthField)
  {
    Sha.PaddingMeetsFips(a, m);
    hide I2osp, ZeroCount, Sha.Pad;
    var zeros := ZeroCount(|m|, a.block, a.lengthField);
    assert |Sha.FipsPad(a, m)| == |m| + 1 + zeros + a.lengthField;
  }

  /** Section 5.1 of FIPS 180-4: blocks of 512 bits that end in a length of 64 bits, and blocks of 1024 bits that end
      in one of 128 bits, big-endian, for every message whose bit length fits 64 bits. */
  lemma PaddedSizes(c256: Sha.Compression, c384: Sha.Compression, m: seq<byte>)
    requires 8 * |m| < TWO_64
    ensures var p := Sha.Pad(Sha.Sha256(c256), m);
            |p| % 64 == 0 && |p| >= 8 && m + [0x80] <= p && p[|p| - 8..] == I2osp(8 * |m|, 8)
    ensures var p := Sha.Pad(Sha.Sha384(c384), m);
            |p| % 128 == 0 && |p| >= 16 && m + [0x80] <= p && p[|p| - 16..] == I2osp(8 * |m|, 16)
  {
    hide I2osp, Sha.Pad;
    PaddedSize(Sha.Sha256(c256), m);
    PaddedSize(Sha.Sha384(c384), m);
  }
}
