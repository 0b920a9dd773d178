/** Signing as section 8.2.1 of RFC 8017 has it, and the verifier of src/security/rsa_pkcs1.cpp on what was
    signed. */
module RsaSigning {
  import opened Common
  import opened Arithmetic
  import opened Octets
  import opened RsaPkcs1
  import Big = BigUInt

  /** Raising to d undoes raising to the public exponent, below the modulus. */
  ghost predicate IsPrivate(key: RsaPublicKey, d: nat) {
    var n, e := Os2ip(key.modulus), Os2ip(key.exponent);
    && e > 0 && |key.modulus| > 0 && key.modulus[0] != 0
    && forall m: nat :: m < n ==> Undone(m, d, e, n)
  }

  ghost predicate Undone(m: nat, d: nat, e: nat, n: nat) {
    n > 0 && Pow(Pow(m, d), e) % n == m
  }

  /** RSASSA-PKCS1-V1_5-SIGN. */
  ghost function Sign(key: RsaPublicKey, d: nat, prefix: seq<byte>, digest: seq<byte>): seq<byte>
    requires Os2ip(key.modulus) > 0 && |key.modulus| >= |prefix| + |digest| + 11
  {
    I2osp(Pow(Os2ip(Emsa(prefix, digest, |key.modulus|)), d) % Os2ip(key.modulus), |key.modulus|)
  }

  lemma StartsWithOne(prefix: seq<byte>, digest: seq<byte>, k: nat)
    requires k >= |prefix| + |digest| + 11
    ensures var em := Emsa(prefix, digest, k); em[0] == 0x00 && em[1] == 0x01
  {}

  /** An encoded message starts with 00 01, so it lies between zero and any modulus of its length. */
  lemma EncodedBelow(em: seq<byte>, modulus: seq<byte>)
    requires |em| == |modulus| >= 2 && em[0] == 0x00 && em[1] == 0x01 && modulus[0] != 0
    ensures 0 < Os2ip(em) < Os2ip(modulus)
  {
    var rest := em[1..];
    assert rest[0] == 0x01;
    hide Os2ip, Pow;
    DropLeadingZero(em);
    LeadingByteBound(rest);
    Os2ipBound(rest);
    LeadingByteBound(modulus);
    PowPositive(|rest| - 1);
  }

  lemma PowPositive(k: nat)
    ensures Pow(0x100, k) > 0
  {}

  /** Reducing a number first does not change its power. */
  lemma PowOfRest(x: nat, e: nat, n: nat)
    requires n > 0
    ensures Pow(x % n, e) % n == Pow(x, e) % n
  {
    Big.ReduceBase(1, x, e, n);
  }

  lemma {:induction false} PowOfZero(e: nat)
    requires e > 0
    ensures Pow(0, e) == 0
  {}

  lemma UndoneBelow(key: RsaPublicKey, d: nat, m: nat)
    requires IsPrivate(key, d) && m < Os2ip(key.modulus)
    ensures Os2ip(key.modulus) > 0 && Os2ip(key.exponent) > 0
    ensures Pow(Pow(m, d), Os2ip(key.exponent)) % Os2ip(key.modulus) == m
  {
    assert Undone(m, d, Os2ip(key.exponent), Os2ip(key.modulus));
    hide Pow, Os2ip;
  }

  lemma RestBelow(x: nat, n: nat)
    requires n > 0
    ensures x % n < n
  {}

  /** The signature as a number, and what raising it to the public exponent gives. */
  lemma SignatureRoundTrip(key: RsaPublicKey, d: nat, m: nat) returns (s: nat)
    requires IsPrivate(key, d) && 0 < m < Os2ip(key.modulus)
    ensures s == Pow(m, d) % Os2ip(key.modulus) && 0 < s < Os2ip(key.modulus)
    ensures Pow(s, Os2ip(key.exponent)) % Os2ip(key.modulus) == m
  {
    hide Pow, Os2ip, IsPrivate;
    UndoneBelow(key, d, m);
    var n, e := Os2ip(key.modulus), Os2ip(key.exponent);
    s := Pow(m, d) % n;
    RestBelow(Pow(m, d), n);
    PowOfRest(Pow(m, d), e, n);
    PowOfZero(e);
    RestBelow(0, n);
  }

  lemma AcceptedIf(signature: seq<byte>, key: RsaPublicKey, digest: seq<byte>, prefix: seq<byte>, s: nat, em: seq<byte>)
    requires |key.modulus| >= |prefix| + |digest| + 11 && em == Emsa(prefix, digest, |key.modulus|)
    requires Os2ip(signature) == s && 0 < s < Os2ip(key.modulus) && Os2ip(key.exponent) > 0
    requires Pow(s, Os2ip(key.exponent)) % Os2ip(key.modulus) == Os2ip(em) && I2osp(Os2ip(em), |em|) == em
    ensures ValidSignature(signature, key, digest, prefix)
  {
    hide Emsa, Pow, Os2ip, I2osp;
  }

  /** Every signature made with the private exponent is accepted, for any modulus long enough. */
  lemma SignedIsValid(key: RsaPublicKey, d: nat, prefix: seq<byte>, digest: seq<byte>)
    requires IsPrivate(key, d) && |key.modulus| >= |prefix| + |digest| + 11
    ensures Os2ip(key.modulus) > 0 && ValidSignature(Sign(key, d, prefix, digest), key, digest, prefix)
  {
    assert key.modulus[0] != 0 && |key.modulus| >= 2;
    hide Emsa, Pow, Os2ip, I2osp, IsPrivate, ValidSignature;
    var em := Emsa(prefix, digest, |key.modulus|);
    StartsWithOne(prefix, digest, |key.modulus|);
    EncodedBelow(em, key.modulus);
    UndoneBelow(key, d, Os2ip(em));
    var s := SignatureRoundTrip(key, d, Os2ip(em));
    Os2ipBound(key.modulus);
    Os2ipI2osp(s, |key.modulus|);
    I2ospOs2ip(em);
    AcceptedIf(Sign(key, d, prefix, digest), key, digest, prefix, s, em);
  }
}
