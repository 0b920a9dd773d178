/** RSA PKCS#1 v1.5 signature verification (src/security/rsa_pkcs1.cpp). */
module RsaPkcs1 {
  import opened Common
  import opened Arithmetic
  import opened Octets
  import Big = BigUInt
  import BigBytes = BigUIntBytes

  datatype RsaPublicKey = RsaPublicKey(modulus: seq<byte>, exponent: seq<byte>)

  const SHA256_DIGEST_INFO_PREFIX: seq<byte> := [
    0x30, 0x31, 0x30, 0x0d, 0x06, 0x09, 0x60, 0x86, 0x48, 0x01,
    0x65, 0x03, 0x04, 0x02, 0x01, 0x05, 0x00, 0x04, 0x20]

  const SHA384_DIGEST_INFO_PREFIX: seq<byte> := [
    0x30, 0x41, 0x30, 0x0d, 0x06, 0x09, 0x60, 0x86, 0x48, 0x01,
    0x65, 0x03, 0x04, 0x02, 0x02, 0x05, 0x00, 0x04, 0x30]

  /** EMSA-PKCS1-v1_5 (section 9.2 of RFC 8017): the one encoded message of k octets for a DigestInfo
      T = prefix + digest, with at least eight octets of padding. */
  ghost function Emsa(prefix: seq<byte>, digest: seq<byte>, k: nat): (em: seq<byte>)
    requires k >= |prefix| + |digest| + 11
    ensures |em| == k
  {
    [0x00, 0x01] + Fill(k - 3 - |prefix| - |digest|, 0xFF as byte) + [0x00] + prefix + digest
  }

  /** RSASSA-PKCS1-V1_5-VERIFY (section 8.2.2 of RFC 8017), by comparison with the one valid encoding. */
  ghost predicate ValidSignature(signature: seq<byte>, key: RsaPublicKey, digest: seq<byte>, prefix: seq<byte>) {
    var n, e, s, k := Os2ip(key.modulus), Os2ip(key.exponent), Os2ip(signature), |key.modulus|;
    && 0 < s < n
    && e > 0
    && k >= |prefix| + |digest| + 11
    && I2osp(Pow(s, e) % n, k) == Emsa(prefix, digest, k)
  }

  /** Does em read 00 01 FF..FF 00 prefix digest, with eight or more FF? A scan over the padding. */
  method CheckPadding(em: seq<byte>, digest: seq<byte>, prefix: seq<byte>) returns (ok: bool)
    ensures ok <==> |em| >= |prefix| + |digest| + 11 && em == Emsa(prefix, digest, |em|)
  {
    ghost var sep := |em| - 1 - |prefix| - |digest|;
    if |em| < 11 || em[0] != 0x00 || em[1] != 0x01 { return false; }
    var i := 2;
    while i < |em| && em[i] == 0xFF
      invariant 2 <= i <= |em|
      invariant forall j :: 2 <= j < i ==> em[j] == 0xFF
    {
      i := i + 1;
    }
    if sep >= 10 && em == Emsa(prefix, digest, |em|) {
      assert em[sep] == 0x00 && forall j :: 2 <= j < sep ==> em[j] == 0xFF;
    }
    if i - 2 < 8 { return false; }
    if i >= |em| || em[i] != 0x00 { return false; }
    i := i + 1;
    if |em| - i != |prefix| + |digest| { return false; }
    assert sep == i - 1;
    assert em[i..] == em[i..i + |prefix|] + em[i + |prefix|..];
    if sep >= 10 && em == Emsa(prefix, digest, |em|) {
      assert em[i..i + |prefix|] == prefix;
      assert em[i + |prefix|..] == digest;
    }
    if em[i..i + |prefix|] != prefix { return false; }
    i := i + |prefix|;
    ok := em[i..] == digest;
    if ok { assert em == Emsa(prefix, digest, |em|); }
  }

  /** verify_pkcs1v15, for either digest size: accepts exactly the valid signatures. */
  method VerifyPkcs1v15(signature: seq<byte>, key: RsaPublicKey, digest: seq<byte>, prefix: seq<byte>)
    returns (ok: bool)
    ensures ok <==> ValidSignature(signature, key, digest, prefix)
  {
    if |signature| == 0 || |key.modulus| == 0 || |key.exponent| == 0 { return false; }
    var n := BigBytes.FromBytesBe(key.modulus);
    var e := BigBytes.FromBytesBe(key.exponent);
    var sig := BigBytes.FromBytesBe(signature);
    if n == [] || e == [] || sig == [] { return false; }
    Positive(n);
    Positive(e);
    Positive(sig);
    var c := Big.Compare(sig, n);
    if c >= 0 { return false; }
    var decoded := Big.ModPow(sig, e, n);
    var em := BigBytes.ToBytesBe(decoded, |key.modulus|);
    // the recovered value is below the modulus, so k octets suffice
    Os2ipBound(key.modulus);
    BigBytes.ToBytesIsI2osp(em, Big.Value(decoded), |key.modulus|);
    if |em| != |key.modulus| { return false; }
    ok := CheckPadding(em, digest, prefix);
  }

  lemma Positive(a: Big.Big)
    ensures Big.Value(a) > 0 <==> a != []
  {
    if a != [] {
      Big.NormalBounds(a);
      Big.UpMonotone(0, |a| - 1);
    }
  }

  method VerifyPkcs1v15Sha256(signature: seq<byte>, key: RsaPublicKey, digest: seq<byte>) returns (ok: bool)
    ensures ok <==> ValidSignature(signature, key, digest, SHA256_DIGEST_INFO_PREFIX)
  {
    ok := VerifyPkcs1v15(signature, key, digest, SHA256_DIGEST_INFO_PREFIX);
  }

  method VerifyPkcs1v15Sha384(signature: seq<byte>, key: RsaPublicKey, digest: seq<byte>) returns (ok: bool)
    ensures ok <==> ValidSignature(signature, key, digest, SHA384_DIGEST_INFO_PREFIX)
  {
    ok := VerifyPkcs1v15(signature, key, digest, SHA384_DIGEST_INFO_PREFIX);
  }

  /** Where the separator and the padding of an encoded message lie. */
  lemma EmsaShape(prefix: seq<byte>, digest: seq<byte>, k: nat)
    requires k >= |prefix| + |digest| + 11
    ensures var em, sep := Emsa(prefix, digest, k), k - 1 - |prefix| - |digest|;
            && em[0] == 0x00 && em[1] == 0x01 && sep - 2 >= 8
            && em[sep] == 0x00 && (forall j :: 2 <= j < sep ==> em[j] == 0xFF)
            && em[sep + 1..sep + 1 + |prefix|] == prefix && em[sep + 1 + |prefix|..] == digest
  {
  }

  /** One signature binds one digest: under a given key it verifies for at most one digest, and for at
      most one of the two digest algorithms. */
  lemma SignatureBindsDigest(signature: seq<byte>, key: RsaPublicKey,
                             p1: seq<byte>, d1: seq<byte>, p2: seq<byte>, d2: seq<byte>)
    requires |p1| == |p2|
    requires ValidSignature(signature, key, d1, p1) && ValidSignature(signature, key, d2, p2)
    ensures p1 == p2 && d1 == d2
  {
    var k := |key.modulus|;
    EmsaShape(p1, d1, k);
    EmsaShape(p2, d2, k);
    assert |d1| == |d2|;
  }
}
